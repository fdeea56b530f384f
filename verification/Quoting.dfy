/** Quoting of command line arguments: the versions of agents/vmware/fence_vmware.py and of
    lib/fencing_snmp.py, and a shell's reading of the result. */
module Quoting {
  import opened Replacement
  import opened Wrappers

  /** quote_for_run of lib/fencing_snmp.py. */
  function QuoteForSnmp(text: string): string {
    Replace(text, '\'', "'\\''")
  }

  /** quote_for_run of agents/vmware/fence_vmware.py. */
  method QuoteForRun(text: string) returns (dstr: string)
    ensures dstr == QuoteForSnmp(text)
  {
    dstr := "";
    for i := 0 to |text|
      invariant dstr == QuoteForSnmp(text[..i])
    {
      assert text[..i+1] == text[..i] + [text[i]];
      ReplaceConcat(text[..i], [text[i]], '\'', "'\\''");
      ReplaceChar(text[i], '\'', "'\\''");
      if text[i] == '\'' {
        dstr := dstr + "'\\''";
      } else {
        dstr := dstr + [text[i]];
      }
    }
    assert text[..|text|] == text;
  }

  /** Where a shell is in a word: outside quotes, after a backslash there (section 2.2.1 of the
      POSIX Shell Command Language), or inside single quotes (section 2.2.2). */
  datatype Mode = Plain | Escaped | Single

  predicate Separates(c: char) {
    c in {' ', '\t', '\n'}
  }

  /** Characters with a meaning of their own outside quotes. */
  predicate Special(c: char) {
    c in {'|', '&', ';', '<', '>', '(', ')', '$', '`', '"', '*', '?', '[', '#', '~', '=', '%'}
  }

  /** The word a shell reads at the beginning of the input, and the input left.  None: a quote
      is not closed, or a special character is not quoted. */
  function ReadWord(input: string, mode: Mode, word: string): Option<(string, string)>
    decreases |input|
  {
    if input == "" then (if mode == Plain then Some((word, "")) else None)
    else
      var c, rest := input[0], input[1..];
      match mode
      case Single => if c == '\'' then ReadWord(rest, Plain, word) else ReadWord(rest, Single, word + [c])
      case Escaped => ReadWord(rest, Plain, if c == '\n' then word else word + [c])
      case Plain =>
        if c == '\'' then ReadWord(rest, Single, word)
        else if c == '\\' then ReadWord(rest, Escaped, word)
        else if Separates(c) then Some((word, input))
        else if Special(c) then None
        else ReadWord(rest, Plain, word + [c])
  }

  /** Inside single quotes, a quoted text is read as the text. */
  lemma {:induction false} QuotedTextIsRead(text: string, word: string, tail: string)
    ensures ReadWord(QuoteForSnmp(text) + tail, Single, word) == ReadWord(tail, Single, word + text)
    decreases |text|
  {
    if text == "" {
      assert QuoteForSnmp(text) + tail == tail && word + text == word;
    } else {
      var c, t := text[0], QuoteForSnmp(text[1..]) + tail;
      QuotedTextIsRead(text[1..], word + [c], tail);
      assert word + [c] + text[1..] == word + text;
      if c == '\'' {
        QuoteIsRead(word, t);
        assert QuoteForSnmp(text) + tail == "'\\''" + t;
      } else {
        assert QuoteForSnmp(text) + tail == [c] + t;
        assert ([c] + t)[1..] == t;
      }
    }
  }

  /** Out of the single quotes, an escaped quote, and in again. */
  lemma QuoteIsRead(word: string, t: string)
    ensures ReadWord("'\\''" + t, Single, word) == ReadWord(t, Single, word + ['\''])
  {
    var s := "'\\''" + t;
    assert s[0] == '\'' && s[1..][0] == '\\' && s[1..][1..] == ['\'', '\''] + t;
    assert (['\'', '\''] + t)[1..] == ['\''] + t && (['\''] + t)[1..] == t;
    assert ReadWord(s[1..], Plain, word) == ReadWord(['\'', '\''] + t, Escaped, word);
    assert ReadWord(['\'', '\''] + t, Escaped, word) == ReadWord(['\''] + t, Plain, word + ['\'']);
  }

  /** Quoted and put between single quotes, any text at all is one word, and what comes after
      it is left: nothing in the text can end the word or start another. */
  lemma QuotedIsOneWord(text: string, tail: string)
    requires tail == "" || Separates(tail[0])
    ensures ReadWord("'" + QuoteForSnmp(text) + "'" + tail, Plain, "") == Some((text, tail))
  {
    var q := "'" + QuoteForSnmp(text) + "'" + tail;
    assert q[1..] == QuoteForSnmp(text) + ("'" + tail);
    QuotedTextIsRead(text, "", "'" + tail);
    assert "" + text == text;
    assert ("'" + tail)[1..] == tail;
  }
}
