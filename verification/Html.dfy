/** The HTML encoding of the usage texts (lib/fencing.py). */
module Html {
  import opened Replacement
  import opened Wrappers

  /** _encode_html_entities. */
  function Encode(text: string): string {
    Replace(Replace(Replace(Replace(Replace(text, '&', "&amp;"), '"', "&quot;"), '<', "&lt;"), '>', "&gt;"), '\'', "&apos;")
  }

  /** Characters and what stands for them. */
  type Rules = seq<(char, string)>

  function Entities(): Rules {
    [('&', "&amp;"), ('"', "&quot;"), ('<', "&lt;"), ('>', "&gt;"), ('\'', "&apos;")]
  }

  // ------------------------------------------------------------- chains of replacements

  /** One replacement after the other, each on the whole text. */
  function Chain(text: string, rules: Rules): string
    decreases |rules|
  {
    if rules == [] then text else Chain(Replace(text, rules[0].0, rules[0].1), rules[1..])
  }

  /** What stands for one character. */
  function Code(c: char, rules: Rules): string
    decreases |rules|
  {
    if rules == [] then [c] else if rules[0].0 == c then rules[0].1 else Code(c, rules[1..])
  }

  /** One pass over the text. */
  function EachChar(text: string, rules: Rules): string {
    if text == "" then "" else Code(text[0], rules) + EachChar(text[1..], rules)
  }

  /** No rule looks for a character that an earlier one has put in. */
  ghost predicate Ordered(rules: Rules) {
    forall i, j | 0 <= i < j < |rules| :: rules[j].0 !in rules[i].1
  }

  lemma {:induction false} ChainConcat(a: string, b: string, rules: Rules)
    ensures Chain(a + b, rules) == Chain(a, rules) + Chain(b, rules)
    decreases |rules|
  {
    if rules != [] {
      var (c, t) := rules[0];
      ReplaceConcat(a, b, c, t);
      ChainConcat(Replace(a, c, t), Replace(b, c, t), rules[1..]);
    }
  }

  lemma {:induction false} ChainAbsent(s: string, rules: Rules)
    requires forall i | 0 <= i < |rules| :: rules[i].0 !in s
    ensures Chain(s, rules) == s
    decreases |rules|
  {
    if rules != [] {
      ReplaceAbsent(s, rules[0].0, rules[0].1);
      ChainAbsent(s, rules[1..]);
    }
  }

  lemma {:induction false} ChainChar(c: char, rules: Rules)
    requires Ordered(rules)
    ensures Chain([c], rules) == Code(c, rules)
    decreases |rules|
  {
    if rules != [] {
      ReplaceChar(c, rules[0].0, rules[0].1);
      if rules[0].0 == c {
        ChainAbsent(rules[0].1, rules[1..]);
      } else {
        ChainChar(c, rules[1..]);
      }
    }
  }

  lemma {:induction false} ChainIsOnePass(text: string, rules: Rules)
    requires Ordered(rules)
    ensures Chain(text, rules) == EachChar(text, rules)
    decreases |text|
  {
    if text == "" {
      ChainAbsent(text, rules);
    } else {
      ChainIsOnePass(text[1..], rules);
      ChainConcat([text[0]], text[1..], rules);
      ChainChar(text[0], rules);
      assert [text[0]] + text[1..] == text;
    }
  }

  // ---------------------------------------------------------------------------- decoding

  predicate StartsWith(s: string, p: string) {
    |p| <= |s| && forall k | 0 <= k < |p| :: s[k] == p[k]
  }

  /** The first rule whose code the text begins with; |rules| when there is none. */
  function Find(s: string, rules: Rules): (i: nat)
    ensures i <= |rules| && (i < |rules| ==> StartsWith(s, rules[i].1))
    ensures forall j | 0 <= j < i :: !StartsWith(s, rules[j].1)
    decreases |rules|
  {
    if rules == [] then 0 else if StartsWith(s, rules[0].1) then 0 else 1 + Find(s, rules[1..])
  }

  /** A reader that knows the codes. */
  function Decode(s: string, rules: Rules): string
    decreases |s|
  {
    if s == "" then ""
    else
      var i := Find(s, rules);
      if i < |rules| && rules[i].1 != "" then [rules[i].0] + Decode(s[|rules[i].1|..], rules)
      else [s[0]] + Decode(s[1..], rules)
  }

  ghost predicate Differ(a: string, b: string) {
    exists k :: 0 <= k < |a| && k < |b| && a[k] != b[k]
  }

  /** Codes begin with '&', for which there is one too, and no code begins another. */
  ghost predicate Readable(rules: Rules) {
    && (forall i | 0 <= i < |rules| :: rules[i].1 != "" && rules[i].1[0] == '&')
    && (forall i, j | 0 <= i < |rules| && 0 <= j < |rules| && i != j :: Differ(rules[i].1, rules[j].1))
    && (exists i :: 0 <= i < |rules| && rules[i].0 == '&')
  }

  lemma {:induction false} CodeIs(c: char, rules: Rules)
    ensures (forall i | 0 <= i < |rules| :: rules[i].0 != c) ==> Code(c, rules) == [c]
    ensures (exists i :: 0 <= i < |rules| && rules[i].0 == c) ==>
              exists i :: 0 <= i < |rules| && rules[i].0 == c && Code(c, rules) == rules[i].1
    decreases |rules|
  {
    if rules != [] && rules[0].0 != c {
      CodeIs(c, rules[1..]);
      if i :| 0 <= i < |rules| && rules[i].0 == c {
        assert rules[1..][i-1].0 == c;
        var j :| 0 <= j < |rules| - 1 && rules[1..][j].0 == c && Code(c, rules[1..]) == rules[1..][j].1;
        assert rules[j+1] == rules[1..][j];
      }
    }
  }

  lemma DecodeCode(c: char, t: string, rules: Rules)
    requires Readable(rules)
    ensures Decode(Code(c, rules) + t, rules) == [c] + Decode(t, rules)
  {
    CodeIs(c, rules);
    var s := Code(c, rules) + t;
    var f := Find(s, rules);
    if i :| 0 <= i < |rules| && rules[i].0 == c && Code(c, rules) == rules[i].1 {
      forall j | 0 <= j < |rules| && j != i ensures !StartsWith(s, rules[j].1) {
        assert Differ(rules[i].1, rules[j].1);
      }
      assert StartsWith(s, rules[i].1);
      assert s[|rules[i].1|..] == t;
    } else {
      assert f == |rules|;
      assert s[1..] == t;
    }
  }

  lemma {:induction false} DecodeEachChar(text: string, rules: Rules)
    requires Readable(rules)
    ensures Decode(EachChar(text, rules), rules) == text
    decreases |text|
  {
    if text != "" {
      DecodeEachChar(text[1..], rules);
      DecodeCode(text[0], EachChar(text[1..], rules), rules);
    }
  }

  // --------------------------------------------------------------------- the five entities

  lemma EntitiesAreOrdered()
    ensures Ordered(Entities())
  {
  }

  lemma EntitiesAreReadable()
    ensures Readable(Entities())
  {
    var e := Entities();
    assert e[0].0 == '&';
    forall i, j | 0 <= i < |e| && 0 <= j < |e| && i != j ensures Differ(e[i].1, e[j].1) {
      var k := if i + j == 4 && i * j == 0 then 2 else 1;
      assert e[i].1[k] != e[j].1[k];
    }
  }

  lemma EncodeIsChain(text: string)
    ensures Encode(text) == Chain(text, Entities())
  {
    var e := Entities();
    var s1 := Replace(text, '&', "&amp;");
    var s2 := Replace(s1, '"', "&quot;");
    var s3 := Replace(s2, '<', "&lt;");
    var s4 := Replace(s3, '>', "&gt;");
    var s5 := Replace(s4, '\'', "&apos;");
    assert e[1..][1..] == e[2..] && e[2..][1..] == e[3..] && e[3..][1..] == e[4..] && e[4..][1..] == [];
    assert Chain(s4, e[4..]) == s5;
    assert Chain(s3, e[3..]) == s5;
    assert Chain(s2, e[2..]) == s5;
    assert Chain(s1, e[1..]) == s5;
  }

  /** The five replacements, one after the other, are one pass over the text: that of "&"
      comes first, and no replacement touches what an earlier one has put in. */
  lemma EncodeIsOnePass(text: string)
    ensures Encode(text) == EachChar(text, Entities())
  {
    EncodeIsChain(text);
    EntitiesAreOrdered();
    ChainIsOnePass(text, Entities());
  }

  /** Every text is decoded to itself. */
  lemma RoundTrip(text: string)
    ensures Decode(Encode(text), Entities()) == text
  {
    EncodeIsOnePass(text);
    EntitiesAreReadable();
    DecodeEachChar(text, Entities());
  }

  lemma {:induction false} NoMarkup(text: string, rules: Rules)
    requires forall i, j | 0 <= i < |rules| && 0 <= j < |rules| && rules[i].0 != '&' :: rules[i].0 !in rules[j].1
    ensures forall i | 0 <= i < |rules| && rules[i].0 != '&' :: rules[i].0 !in EachChar(text, rules)
    decreases |text|
  {
    if text != "" {
      NoMarkup(text[1..], rules);
      CodeIs(text[0], rules);
    }
  }

  /** No quote or angle bracket is left in an encoded text. */
  lemma EncodedHasNoMarkup(text: string)
    ensures forall c | c in Encode(text) :: c !in {'"', '<', '>', '\''}
  {
    var e := Entities();
    EncodeIsOnePass(text);
    NoMarkup(text, e);
    assert e[1].0 == '"' && e[2].0 == '<' && e[3].0 == '>' && e[4].0 == '\'';
  }

  // ------------------------------------------------------------------- an XML processor

  /** The predefined entities (section 4.6 of Extensible Markup Language (XML) 1.0). */
  function Predefined(name: string): Option<char> {
    if name == "lt" then Some('<')
    else if name == "gt" then Some('>')
    else if name == "amp" then Some('&')
    else if name == "apos" then Some('\'')
    else if name == "quot" then Some('"')
    else None
  }

  /** Where the first semicolon is. */
  function Semicolon(s: string): (k: nat)
    ensures k <= |s| && (k < |s| ==> s[k] == ';') && forall i | 0 <= i < k :: s[i] != ';'
  {
    if s == "" || s[0] == ';' then 0 else 1 + Semicolon(s[1..])
  }

  /** The text as an XML processor reads it: a reference to a predefined entity, "&name;", is
      its character. */
  function XmlText(s: string): string
    decreases |s|
  {
    if s == "" then ""
    else
      var k := Semicolon(s);
      if s[0] == '&' && k < |s| && Predefined(s[1..k]).Some?
      then [Predefined(s[1..k]).value] + XmlText(s[k+1..])
      else [s[0]] + XmlText(s[1..])
  }

  lemma ReferenceIsRead(name: string, t: string)
    requires Predefined(name).Some? && ';' !in name
    ensures XmlText("&" + name + ";" + t) == [Predefined(name).value] + XmlText(t)
  {
    var s := "&" + name + ";" + t;
    var k := |name| + 1;
    assert s[k] == ';' && s[1..k] == name && s[k+1..] == t;
    assert forall i | 0 < i < k :: s[i] == name[i-1];
    assert Semicolon(s) == k;
  }

  lemma CodeIsReference(c: char, t: string)
    ensures XmlText(Code(c, Entities()) + t) == [c] + XmlText(t)
  {
    var e := Entities();
    CodeIs(c, e);
    EntitiesHaveNames();
    if i :| 0 <= i < |e| && e[i].0 == c && Code(c, e) == e[i].1 {
      var name := e[i].1[1..|e[i].1|-1];
      assert "&" + name + ";" == e[i].1;
      ReferenceIsRead(name, t);
    } else {
      assert e[0].0 == '&' && c != '&';
      assert ([c] + t)[1..] == t;
    }
  }

  lemma EntitiesHaveNames()
    ensures forall i | 0 <= i < |Entities()| :: var (c, code) := Entities()[i];
              |code| >= 2 && code[0] == '&' && code[|code|-1] == ';' && ';' !in code[1..|code|-1] && Predefined(code[1..|code|-1]) == Some(c)
  {
    assert "&amp;"[1..4] == "amp" && "&quot;"[1..5] == "quot" && "&lt;"[1..3] == "lt" && "&gt;"[1..3] == "gt" && "&apos;"[1..5] == "apos";
  }

  lemma {:induction false} EachCharIsRead(text: string)
    ensures XmlText(EachChar(text, Entities())) == text
    decreases |text|
  {
    if text != "" {
      EachCharIsRead(text[1..]);
      CodeIsReference(text[0], EachChar(text[1..], Entities()));
    }
  }

  /** An XML processor reads every encoded text as the text. */
  lemma EncodedTextIsRead(text: string)
    ensures XmlText(Encode(text)) == text
  {
    EncodeIsOnePass(text);
    EachCharIsRead(text);
  }
}
