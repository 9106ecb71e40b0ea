/**
  Worked instances of the filters on a few sample inputs. The texts are passed as parameters fixed by the
  precondition, which keeps the verifier from expanding every function on
  them symbol by symbol.
 */
module Examples {
  import opened Strings
  import opened Normalizer
  import opened Decimal

  /** Of a list of alternatives only the first one's first sentence survives. */
  lemma FirstAlternativeExample()
    ensures NormalizeDescription(Alternatives(["a.b", "c"])) == "a"
  {
    var s := "a.b";
    assert s == "a" + ['.'] + "b";
    SplitAround("a", "b", '.');
    assert FirstSentence(s) == "a";
    NormalizePlainPrefix(Scalar(s));
  }

  /** Everything from the first period on is dropped. */
  lemma FirstSentenceExample()
    ensures NormalizeDescription(Scalar("x.y.z")) == "x"
  {
    var s := "x.y.z";
    assert s == "x" + ['.'] + "y.z";
    SplitAround("x", "y.z", '.');
    assert FirstSentence(s) == "x";
    NormalizePlainPrefix(Scalar(s));
  }

  /** A plain sentence loses only its closing period. */
  lemma ClosingPeriod(text: string)
    requires '.' !in text && '"' !in text && '\\' !in text
    ensures NormalizeDescription(Scalar(text + ".")) == text
    ensures NormalizeDescription(Alternatives([text + "."])) == text
  {
    assert text + "." == text + ['.'] + "";
    SplitAround(text, "", '.');
    NormalizePlainPrefix(Scalar(text + "."));
  }

  /** The short description `Say hello.` becomes `Say hello`. */
  lemma ShortDescriptionExample(text: string)
    requires text == "Say hello"
    ensures NormalizeDescription(Scalar(text + ".")) == text
  {
    assert '.' !in text && '"' !in text && '\\' !in text;
    ClosingPeriod(text);
  }

  /** The first option placeholder of a module documented as `The name to greet.` is `${1:# The name to greet}`. */
  lemma PlaceholderExample(text: string)
    requires text == "The name to greet"
    ensures OptionPlaceholder(1, OptionSpec(Alternatives([text + "."]))) == "${1:# " + text + "}"
  {
    assert '.' !in text && '"' !in text && '\\' !in text;
    ClosingPeriod(text);
    FirstPlaceholder(Alternatives([text + "."]), text);
  }

  lemma FirstPlaceholder(d: Description, text: string)
    requires NormalizeDescription(d) == text
    ensures OptionPlaceholder(1, OptionSpec(d)) == "${1:# " + text + "}"
  {
    assert NatToString(1) == "1";
  }

  /** A module of the `ansible` namespace is tagged with its short name. */
  lemma BuiltinTagExample(name: string, ns: string, mid: string, short: string)
    requires ns == "ansible" && mid == "builtin" && short == "copy"
    requires name == ns + "." + mid + "." + short
    ensures Tags(name) == [short]
  {
    assert '.' !in ns && '.' !in mid && '.' !in short;
    var tail := mid + ['.'] + short;
    assert name == ns + ['.'] + tail;
    SplitAround(mid, short, '.');
    SplitAround(ns, tail, '.');
    assert Split(name, '.') == [ns, mid, short];
  }

  /** A module of any other namespace is tagged with all its parts. */
  lemma CommunityTagExample(name: string, ns: string, mid: string, short: string)
    requires ns == "community" && mid == "general" && short == "foo"
    requires name == ns + "." + mid + "." + short
    ensures Tags(name) == [ns, mid, short]
  {
    assert '.' !in ns && '.' !in mid && '.' !in short;
    var tail := mid + ['.'] + short;
    assert name == ns + ['.'] + tail;
    SplitAround(mid, short, '.');
    SplitAround(ns, tail, '.');
    assert Split(name, '.') == [ns, mid, short];
  }
}
