/**
  The text filters that the snippet templates call: the description
  normaliser (`ansible_filter`), the tag list of a module (`ansible_tags`) and
  the numbered option placeholder (`ansible_option_description`), together
  with a reader for the placeholder syntax and for the backslash escaping,
  which serve as their inverses.
 */
module Normalizer {
  import opened Optional
  import opened Strings
  import opened Decimal

  /** What an empty list of description alternatives stands for. */
  const NoDescription: string := "No description available"

  /**
    A documentation text as the doc loader hands it over: either one string,
    or an `AnsibleSequence` of alternative strings.
   */
  datatype Description = Scalar(text: string) | Alternatives(items: seq<string>)

  /** One entry of a name's `options`: only its `description` is read here. */
  datatype OptionSpec = OptionSpec(description: Description)

  /** The text chosen from a description: the scalar itself, the first alternative, or the sentinel. */
  function Canonical(d: Description): string
  {
    match d
    case Scalar(s) => s
    case Alternatives(xs) => if |xs| > 0 then xs[0] else NoDescription
  }

  /** `text.split('.')[0]`: the longest prefix without a period. */
  function FirstSentence(s: string): (r: string)
    ensures r <= s && '.' !in r
    ensures |r| == |s| || s[|r|] == '.'
  {
    SplitFirst(s, '.');
    Split(s, '.')[0]
  }

  /** The first sentence with `"` turned into `'`, before backslashes are escaped. */
  function Unquoted(d: Description): (r: string)
    ensures '.' !in r && '"' !in r
  {
    ReplaceMembership(FirstSentence(Canonical(d)), '"', "'", '.');
    ReplaceMembership(FirstSentence(Canonical(d)), '"', "'", '"');
    ReplaceAll(FirstSentence(Canonical(d)), '"', "'")
  }

  /**
    `ansible_filter`: pick the text, keep its first sentence, turn double quotes
    into single quotes and double every backslash. The result never holds a
    period or a double quote.
   */
  function NormalizeDescription(d: Description): (r: string)
    ensures '.' !in r && '"' !in r
  {
    var q := Unquoted(d);
    ReplaceMembership(q, '\\', "\\\\", '.');
    ReplaceMembership(q, '\\', "\\\\", '"');
    ReplaceAll(q, '\\', "\\\\")
  }

  /** The snippet-format reading of an escaped text: every `\\` pair stands for one backslash. */
  function Unescape(s: string): string
  {
    if |s| >= 2 && s[0] == '\\' && s[1] == '\\' then "\\" + Unescape(s[2..])
    else if |s| == 0 then ""
    else [s[0]] + Unescape(s[1..])
  }

  /** Reading the escaped text gives back the text before escaping. */
  lemma {:induction false} UnescapeEscape(s: string)
    ensures Unescape(ReplaceAll(s, '\\', "\\\\")) == s
  {
    if |s| > 0 {
      var rest := ReplaceAll(s[1..], '\\', "\\\\");
      UnescapeEscape(s[1..]);
      if s[0] == '\\' {
        assert ReplaceAll(s, '\\', "\\\\") == "\\\\" + rest;
        assert ("\\\\" + rest)[2..] == rest;
      } else {
        assert ReplaceAll(s, '\\', "\\\\") == [s[0]] + rest;
        assert ([s[0]] + rest)[1..] == rest;
      }
      assert s == [s[0]] + s[1..];
    }
  }

  // ---------------------------------------------------------------------------
  // properties of the normaliser

  /** An empty list of alternatives normalises to the sentinel text itself. */
  lemma NormalizeEmptyAlternatives()
    ensures NormalizeDescription(Alternatives([])) == NoDescription
  {
    assert '.' !in NoDescription && '"' !in NoDescription && '\\' !in NoDescription;
    NormalizePassThrough(NoDescription);
  }

  /** A non-empty list of alternatives normalises like its first alternative; the others play no part. */
  lemma NormalizeFirstAlternative(xs: seq<string>, ys: seq<string>)
    requires |xs| > 0 && |ys| > 0 && xs[0] == ys[0]
    ensures NormalizeDescription(Alternatives(xs)) == NormalizeDescription(Scalar(xs[0]))
    ensures NormalizeDescription(Alternatives(xs)) == NormalizeDescription(Alternatives(ys))
  {
  }

  /** When the first sentence holds no `"` and no `\`, the result is exactly that sentence. */
  lemma NormalizePlainPrefix(d: Description)
    requires '"' !in FirstSentence(Canonical(d)) && '\\' !in FirstSentence(Canonical(d))
    ensures NormalizeDescription(d) == FirstSentence(Canonical(d))
  {
    var p := FirstSentence(Canonical(d));
    ReplaceAbsent(p, '"', "'");
    ReplaceAbsent(p, '\\', "\\\\");
  }

  /** Text without `.`, `"` or `\` passes through unchanged. */
  lemma NormalizePassThrough(s: string)
    requires '.' !in s && '"' !in s && '\\' !in s
    ensures NormalizeDescription(Scalar(s)) == s
  {
    SplitFirst(s, '.');
    NormalizePlainPrefix(Scalar(s));
  }

  /**
    Only backslashes grow: the result has twice as many as the first sentence,
    and is longer than it by exactly that sentence's backslash count.
   */
  lemma NormalizeBackslashes(d: Description)
    ensures Count('\\', NormalizeDescription(d)) == 2 * Count('\\', FirstSentence(Canonical(d)))
    ensures |NormalizeDescription(d)| == |FirstSentence(Canonical(d))| + Count('\\', FirstSentence(Canonical(d)))
  {
    var p := FirstSentence(Canonical(d));
    var q := Unquoted(d);
    ReplaceCount(p, '"', "'", '\\');
    assert Count('\\', "'") == 0;
    ReplaceLength(p, '"', "'");
    ReplaceCount(q, '\\', "\\\\", '\\');
    assert Count('\\', "\\\\") == 2;
    ReplaceLength(q, '\\', "\\\\");
  }

  /** Undoing the backslash escaping yields the first sentence with its quotes replaced, and nothing else. */
  lemma NormalizeUnescape(d: Description)
    ensures Unescape(NormalizeDescription(d)) == ReplaceAll(FirstSentence(Canonical(d)), '"', "'")
  {
    UnescapeEscape(Unquoted(d));
  }

  // ---------------------------------------------------------------------------
  // tags

  /** The namespace of Ansible's own modules. */
  const BuiltinNamespace: string := "ansible"

  /** `ansible_tags`: the dot-separated parts of the module name, or only its last part for an `ansible.` name. */
  function Tags(name: string): (tags: seq<string>)
    ensures |tags| >= 1
    ensures forall k :: 0 <= k < |tags| ==> '.' !in tags[k]
  {
    var parts := Split(name, '.');
    if parts[0] == BuiltinNamespace then parts[|parts| - 1..] else parts
  }

  /** The first part is `ansible` exactly for the name `ansible` itself and for names that start with `ansible.`. */
  lemma AnsibleNamespace(name: string)
    ensures Split(name, '.')[0] == BuiltinNamespace
        <==> name == BuiltinNamespace || (|name| >= 8 && name[..8] == BuiltinNamespace + ".")
  {
    var ns := BuiltinNamespace;
    assert '.' !in ns && |ns| == 7;
    if name == ns || (|name| >= 8 && name[..8] == ns + ".") {
      FirstPartOfPrefixed(name, ns);
    }
    if Split(name, '.')[0] == ns {
      PrefixedOfFirstPart(name, ns);
    }
  }

  /** A name that is `ns` or starts with `ns.` has `ns` as its first part. */
  lemma FirstPartOfPrefixed(name: string, ns: string)
    requires '.' !in ns
    requires name == ns || (|name| > |ns| && name[..|ns| + 1] == ns + ".")
    ensures Split(name, '.')[0] == ns
  {
    if name == ns {
      assert Split(name, '.') == [ns];
    } else {
      var rest := name[|ns| + 1..];
      assert name == name[..|ns| + 1] + rest;
      assert ns + "." == ns + ['.'];
      SplitAround(ns, rest, '.');
    }
  }

  /** A name whose first part is `ns` is `ns` or starts with `ns.`. */
  lemma PrefixedOfFirstPart(name: string, ns: string)
    requires Split(name, '.')[0] == ns
    ensures name == ns || (|name| > |ns| && name[..|ns| + 1] == ns + ".")
  {
    var p := FirstSentence(name);
    if |name| != |ns| {
      assert name[..|ns|] == p && name[|ns|] == '.';
      assert name[..|ns| + 1] == p + ['.'];
    }
  }

  /** For a name in the `ansible` namespace the only tag is the last dot-separated part, which ends the name. */
  lemma TagsOfBuiltin(name: string)
    requires Split(name, '.')[0] == BuiltinNamespace
    ensures |Tags(name)| == 1
    ensures var t := Tags(name)[0];
      && '.' !in t
      && |t| <= |name| && name[|name| - |t|..] == t
      && (|t| == |name| || name[|name| - |t| - 1] == '.')
  {
    var parts := Split(name, '.');
    SplitLast(name, '.');
    assert Tags(name) == [Last(parts)];
  }

  /** Any other name keeps all its parts, and joining them with `.` gives the name back. */
  lemma TagsOfOther(name: string)
    requires Split(name, '.')[0] != BuiltinNamespace
    ensures Tags(name) == Split(name, '.')
    ensures Join(Tags(name), '.') == name
  {
    JoinSplit(name, '.');
  }

  // ---------------------------------------------------------------------------
  // option placeholders

  /** `ansible_option_description`: the snippet placeholder `${<index>:# <normalised description>}`. */
  function OptionPlaceholder(index: nat, option: OptionSpec): (r: string)
    ensures |r| >= 6 && r[..2] == "${" && r[|r| - 1] == '}'
  {
    "${" + NatToString(index) + ":" + "# " + NormalizeDescription(option.description) + "}"
  }

  /** A placeholder as read back: its number and its text. */
  datatype Placeholder = Placeholder(index: nat, text: string)

  /**
    The text of a placeholder as the snippet syntax reads it: up to the first
    `}` that is not escaped, where `\\`, `\}` and `\$` stand for the escaped
    character and any other character for itself. Gives the text and what
    follows the closing brace, or `None` when no brace closes it.
   */
  function ReadLabel(s: string): Option<(string, string)>
    decreases |s|
  {
    if |s| == 0 then None
    else if s[0] == '}' then Some(("", s[1..]))
    else
      var width := if |s| >= 2 && s[0] == '\\' && (s[1] == '\\' || s[1] == '}' || s[1] == '$') then 2 else 1;
      match ReadLabel(s[width..])
      case None => None
      case Some(r) => Some(([s[width - 1]] + r.0, r.1))
  }

  /**
    Reads a placeholder `${<digits>:# <text>}` at the start of `s`: the digits
    are the longest run after `${`, the text is read by ReadLabel. Gives the
    placeholder and whatever follows its closing brace.
   */
  function ParsePlaceholder(s: string): Option<(Placeholder, string)>
  {
    if |s| < 2 || s[0] != '$' || s[1] != '{' then None else ParseBody(s[2..])
  }

  /** The part of a placeholder after `${`: a run of digits, then the rest. */
  function ParseBody(body: string): Option<(Placeholder, string)>
  {
    var k := DigitSpan(body);
    ParseAfterDigits(body[..k], body[k..])
  }

  /** The index digits and what follows them: `:# `, then the text and its closing brace. */
  function ParseAfterDigits(digits: string, rest: string): Option<(Placeholder, string)>
    requires AllDigits(digits)
  {
    if |digits| == 0 || |rest| < 3 || rest[0] != ':' || rest[1] != '#' || rest[2] != ' ' then None
    else WithIndex(ParseDecimal(digits), ReadLabel(rest[3..]))
  }

  /** A text read by ReadLabel, numbered. */
  function WithIndex(index: nat, read: Option<(string, string)>): Option<(Placeholder, string)>
  {
    match read
    case None => None
    case Some(r) => Some((Placeholder(index, r.0), r.1))
  }

  lemma ParseAfterDigitsWellFormed(digits: string, text: string)
    requires |digits| > 0 && AllDigits(digits)
    ensures ParseAfterDigits(digits, ":# " + text) == WithIndex(ParseDecimal(digits), ReadLabel(text))
  {
    var rest := ":# " + text;
    assert rest[0] == ':' && rest[1] == '#' && rest[2] == ' ';
    assert rest[3..] == text;
  }

  lemma ParseBodyWellFormed(digits: string, text: string)
    requires |digits| > 0 && AllDigits(digits)
    ensures ParseBody(digits + ":# " + text) == WithIndex(ParseDecimal(digits), ReadLabel(text))
  {
    var tail := ":# " + text;
    var body := digits + tail;
    assert digits + ":# " + text == body;
    DigitSpanOfDigits(digits, tail);
    assert body[..|digits|] == digits;
    assert body[|digits|..] == tail;
    ParseAfterDigitsWellFormed(digits, text);
  }

  /** The reader takes any `${<digits>:# ` opening and reads the text after it. */
  lemma ParseWellFormed(digits: string, text: string)
    requires |digits| > 0 && AllDigits(digits)
    ensures ParsePlaceholder("${" + digits + ":# " + text) == WithIndex(ParseDecimal(digits), ReadLabel(text))
  {
    var body := digits + ":# " + text;
    var s := "${" + body;
    assert "${" + digits + ":# " + text == s;
    assert s[0] == '$' && s[1] == '{';
    assert s[2..] == body;
    ParseBodyWellFormed(digits, text);
  }

  /** One character with its backslash doubled is read back as itself, in front of whatever the rest reads as. */
  lemma ReadDoubledChar(x: char, s: string, text: string, after: string)
    requires x != '}'
    requires ReadLabel(s) == Some((text, after))
    ensures ReadLabel(ReplaceAll([x], '\\', "\\\\") + s) == Some(([x] + text, after))
  {
    var e := ReplaceAll([x], '\\', "\\\\");
    assert [x][0] == x && [x][1..] == [];
    assert e == (if x == '\\' then "\\\\" else [x]) + ReplaceAll([], '\\', "\\\\");
    var t := e + s;
    if x == '\\' {
      assert t[0] == '\\' && t[1] == '\\' && t[2..] == s;
    } else {
      assert t[0] == x && t[1..] == s;
    }
  }

  /** Reading text with doubled backslashes and a closing brace: the text comes back up to its first `}`. */
  lemma {:induction false} ReadDoubled(q: string, rest: string)
    ensures ReadLabel(ReplaceAll(q, '\\', "\\\\") + "}" + rest).Some?
    ensures ReadLabel(ReplaceAll(q, '\\', "\\\\") + "}" + rest).value.0 == Split(q, '}')[0]
    ensures '}' !in q ==> ReadLabel(ReplaceAll(q, '\\', "\\\\") + "}" + rest).value.1 == rest
  {
    var s := ReplaceAll(q, '\\', "\\\\") + "}" + rest;
    if |q| == 0 {
      assert s == "}" + rest;
    } else if q[0] == '}' {
      assert s[0] == '}';
      assert Split(q, '}')[0] == "";
    } else {
      var s' := ReplaceAll(q[1..], '\\', "\\\\") + "}" + rest;
      ReadDoubled(q[1..], rest);
      var r := ReadLabel(s').value;
      assert q == [q[0]] + q[1..];
      ReplaceConcat([q[0]], q[1..], '\\', "\\\\");
      assert s == ReplaceAll([q[0]], '\\', "\\\\") + s';
      ReadDoubledChar(q[0], s', r.0, r.1);
      SplitFirstCons(q, '}');
    }
  }

  /** The reader reads a built placeholder's index back, then the normalised description and its closing brace. */
  lemma ReadBuilt(index: nat, option: OptionSpec)
    ensures ParsePlaceholder(OptionPlaceholder(index, option))
         == WithIndex(index, ReadLabel(NormalizeDescription(option.description) + "}"))
  {
    var digits := NatToString(index);
    var text := NormalizeDescription(option.description);
    assert ":" + "# " == ":# ";
    assert OptionPlaceholder(index, option) == "${" + digits + ":# " + (text + "}");
    ParseWellFormed(digits, text + "}");
    ParseNatToString(index);
  }

  /** Reading a built placeholder gives its index, and as text the quote-replaced first sentence up to its first `}`. */
  lemma PlaceholderRoundTrip(index: nat, option: OptionSpec)
    ensures ParsePlaceholder(OptionPlaceholder(index, option)).Some?
    ensures ParsePlaceholder(OptionPlaceholder(index, option)).value.0
         == Placeholder(index, Split(Unquoted(option.description), '}')[0])
    ensures '}' !in FirstSentence(Canonical(option.description)) ==>
              ParsePlaceholder(OptionPlaceholder(index, option)) == Some((Placeholder(index, Unquoted(option.description)), ""))
  {
    var text := NormalizeDescription(option.description);
    ReadBuilt(index, option);
    assert text + "}" == text + "}" + "";
    ReadDoubled(Unquoted(option.description), "");
    ReplaceMembership(FirstSentence(Canonical(option.description)), '"', "'", '}');
  }

  /** Whatever a snippet reads as the text of a placeholder holds no period and no double quote. */
  lemma PlaceholderLabelClean(index: nat, option: OptionSpec)
    ensures ParsePlaceholder(OptionPlaceholder(index, option)).Some?
    ensures var text := ParsePlaceholder(OptionPlaceholder(index, option)).value.0.text;
      '.' !in text && '"' !in text
  {
    PlaceholderRoundTrip(index, option);
    SplitFirst(Unquoted(option.description), '}');
  }

  /** An option described as `a}b` becomes `${1:# a}b}`, which reads as the text `a` followed by `b}`. */
  lemma BraceCutsLabel(text: string)
    requires text == "a}b"
    ensures NormalizeDescription(Scalar(text)) == text
    ensures ParsePlaceholder(OptionPlaceholder(1, OptionSpec(Scalar(text))))
         == Some((Placeholder(1, "a"), "b}"))
  {
    assert '.' !in text && '"' !in text && '\\' !in text;
    NormalizePassThrough(text);
    ReadBuilt(1, OptionSpec(Scalar(text)));
    ReadFirstBrace(text + "}");
  }

  lemma ReadFirstBrace(s: string)
    requires s == "a}b}"
    ensures ReadLabel(s) == Some(("a", "b}"))
  {
    var tail := s[1..];
    assert s[0] == 'a' && tail == "}b}";
    assert tail[0] == '}' && tail[1..] == "b}";
    assert ReadLabel(tail) == Some(("", "b}"));
    assert ReadLabel(s) == Some((['a'] + "", "b}"));
    assert ['a'] + "" == "a";
  }

  // ---------------------------------------------------------------------------
  // the placeholder with `}` escaped as well

  /** The text a placeholder needs in the snippet syntax: the normalised description with each `}` written `\}`. */
  function EscapedDescription(d: Description): (r: string)
    ensures '.' !in r && '"' !in r
  {
    var n := NormalizeDescription(d);
    ReplaceMembership(n, '}', "\\}", '.');
    ReplaceMembership(n, '}', "\\}", '"');
    ReplaceAll(n, '}', "\\}")
  }

  /** `ansible_option_description` with that escaping. */
  function EscapedPlaceholder(index: nat, option: OptionSpec): (r: string)
    ensures |r| >= 6 && r[..2] == "${" && r[|r| - 1] == '}'
  {
    "${" + NatToString(index) + ":# " + EscapedDescription(option.description) + "}"
  }

  /** Without a `}` in the first sentence the extra escaping changes nothing. */
  lemma EscapedAgrees(index: nat, option: OptionSpec)
    requires '}' !in FirstSentence(Canonical(option.description))
    ensures EscapedDescription(option.description) == NormalizeDescription(option.description)
    ensures EscapedPlaceholder(index, option) == OptionPlaceholder(index, option)
  {
    var d := option.description;
    ReplaceMembership(FirstSentence(Canonical(d)), '"', "'", '}');
    ReplaceMembership(Unquoted(d), '\\', "\\\\", '}');
    ReplaceAbsent(NormalizeDescription(d), '}', "\\}");
    assert ":" + "# " == ":# ";
  }

  /** How EscapedDescription writes one character. */
  function EscapeChar(x: char): string
  {
    if x == '\\' then "\\\\" else if x == '}' then "\\}" else [x]
  }

  lemma EscapeCons(q: string)
    requires |q| > 0
    ensures ReplaceAll(ReplaceAll(q, '\\', "\\\\"), '}', "\\}")
         == EscapeChar(q[0]) + ReplaceAll(ReplaceAll(q[1..], '\\', "\\\\"), '}', "\\}")
  {
    var x := q[0];
    var doubled' := ReplaceAll(q[1..], '\\', "\\\\");
    var head := if x == '\\' then "\\\\" else [x];
    assert ReplaceAll(q, '\\', "\\\\") == head + doubled';
    ReplaceConcat(head, doubled', '}', "\\}");
    if x == '\\' {
      ReplaceAbsent(head, '}', "\\}");
    } else {
      assert head[1..] == [];
    }
  }

  /** One escaped character is read back as itself, in front of whatever the rest reads as. */
  lemma ReadEscapeChar(x: char, s: string, text: string, after: string)
    requires ReadLabel(s) == Some((text, after))
    ensures ReadLabel(EscapeChar(x) + s) == Some(([x] + text, after))
  {
    var t := EscapeChar(x) + s;
    if x == '\\' || x == '}' {
      assert t[0] == '\\' && t[1] == x && t[2..] == s;
    } else {
      assert t[0] == x && t[1..] == s;
    }
  }

  /** Reading escaped text and a closing brace gives the text back exactly, and then what follows. */
  lemma {:induction false} ReadEscaped(q: string, rest: string)
    ensures ReadLabel(ReplaceAll(ReplaceAll(q, '\\', "\\\\"), '}', "\\}") + "}" + rest) == Some((q, rest))
  {
    var s := ReplaceAll(ReplaceAll(q, '\\', "\\\\"), '}', "\\}") + "}" + rest;
    if |q| == 0 {
      assert s == "}" + rest;
    } else {
      var s' := ReplaceAll(ReplaceAll(q[1..], '\\', "\\\\"), '}', "\\}") + "}" + rest;
      EscapeCons(q);
      assert s == EscapeChar(q[0]) + s';
      ReadEscaped(q[1..], rest);
      ReadEscapeChar(q[0], s', q[1..], rest);
      assert q == [q[0]] + q[1..];
    }
  }

  /** The escaped placeholder reads back as its index and the whole quote-replaced first sentence, with nothing after it. */
  lemma EscapedPlaceholderRoundTrip(index: nat, option: OptionSpec)
    ensures ParsePlaceholder(EscapedPlaceholder(index, option))
         == Some((Placeholder(index, Unquoted(option.description)), ""))
  {
    var digits := NatToString(index);
    var text := EscapedDescription(option.description);
    assert EscapedPlaceholder(index, option) == "${" + digits + ":# " + (text + "}");
    ParseWellFormed(digits, text + "}");
    ParseNatToString(index);
    assert text + "}" == text + "}" + "";
    ReadEscaped(Unquoted(option.description), "");
  }
}
