/**
 * Shell quoting: Python's `shlex.quote`, which follows the single-quote rule
 * of the POSIX Shell Command Language (section 2.2.2 of IEEE Std 1003.1,
 * Shell and Utilities volume), and a small lexer for one shell word that
 * states what "quoted as a single argument" means.
 */
module Shell {
  import opened Wrappers
  import opened Strings

  /** The characters `shlex.quote` leaves unquoted: `[A-Za-z0-9_@%+=:,./-]`. */
  predicate SafeChar(c: char)
  {
    ('A' <= c <= 'Z') || ('a' <= c <= 'z') || ('0' <= c <= '9') ||
    c in {'_', '@', '%', '+', '=', ':', ',', '.', '/', '-'}
  }

  predicate AllSafe(s: string)
  {
    forall i :: 0 <= i < |s| ==> SafeChar(s[i])
  }

  /** How `shlex.quote` writes one single quote inside a single-quoted word:
      close the quote, a double-quoted `'`, reopen the quote. */
  const QuoteEscape: string := "'\"'\"'"

  /** `shlex.quote(s)` */
  function Quote(s: string): (r: string)
    ensures s == [] ==> r == "''"
    ensures s != [] && AllSafe(s) ==> r == s
    ensures s != [] && !AllSafe(s) ==> r == "'" + ReplaceAll(s, "'", QuoteEscape) + "'"
  {
    if s == [] then "''"
    else if AllSafe(s) then s
    else "'" + ReplaceAll(s, "'", QuoteEscape) + "'"
  }

  /** Quoting adds only quote characters. */
  lemma QuoteKeepsAbsent(s: string, c: char)
    requires c !in s && c != '\'' && c != '"'
    ensures c !in Quote(s)
  {
    if s != [] && !AllSafe(s) {
      ReplaceKeepsAbsent(s, "'", QuoteEscape, c);
    }
  }

  /** Where the lexer is: outside quotes, inside '...', or inside "...". */
  datatype LexState = Plain | InSingle | InDouble

  function Prepend(t: string, w: Option<string>): Option<string>
  {
    if w.Some? then Some(t + w.value) else None
  }

  /** One lexer step: the state after a character and the text it stands
      for, or `Stop` when the character is not allowed where it stands. */
  datatype Step = Move(next: LexState, out: string) | Stop

  /**
   * Outside quotes only safe characters may appear (a blank would end the
   * word, an operator such as `;` would end the command, other characters
   * may expand); inside single quotes every character is literal; inside
   * double quotes `$`, a backquote and a backslash keep a special meaning and
   * are refused here.
   */
  function StepOf(c: char, st: LexState): Step
  {
    match st
    case Plain =>
      if c == '\'' then Move(InSingle, [])
      else if c == '"' then Move(InDouble, [])
      else if SafeChar(c) then Move(Plain, [c])
      else Stop
    case InSingle =>
      if c == '\'' then Move(Plain, []) else Move(InSingle, [c])
    case InDouble =>
      if c == '"' then Move(Plain, [])
      else if c == '$' || c == '`' || c == '\\' then Stop
      else Move(InDouble, [c])
  }

  /**
   * The value of the shell word `s`, read from state `st`, provided `s` is
   * exactly one word whose every special character is quoted and which ends
   * outside quotes. `None` means the text is not such a word.
   */
  function Lex(s: string, st: LexState): Option<string>
    decreases |s|
  {
    if s == [] then (if st == Plain then Some([]) else None)
    else
      var step := StepOf(s[0], st);
      if step.Stop? then None else Prepend(step.out, Lex(s[1..], step.next))
  }

  lemma LexCons(c: char, t: string, st: LexState)
    ensures StepOf(c, st).Stop? ==> Lex([c] + t, st) == None
    ensures StepOf(c, st).Move? ==>
              Lex([c] + t, st) == Prepend(StepOf(c, st).out, Lex(t, StepOf(c, st).next))
  {
    assert ([c] + t)[0] == c && ([c] + t)[1..] == t;
  }

  lemma PrependNothing(w: Option<string>)
    ensures Prepend([], w) == w
  {
    if w.Some? {
      assert [] + w.value == w.value;
    }
  }

  /** The argument a shell reads from `s`, when `s` is exactly one safe word. */
  function SingleWord(s: string): Option<string>
  {
    if s == [] then None else Lex(s, Plain)
  }

  /** Safe characters outside quotes stand for themselves. */
  lemma {:induction false} LexSafe(s: string)
    requires AllSafe(s)
    ensures Lex(s, Plain) == Some(s)
    decreases |s|
  {
    if s != [] {
      LexSafe(s[1..]);
      assert [s[0]] + s[1..] == s;
      LexCons(s[0], s[1..], Plain);
    }
  }

  /** Escaping works one character at a time. */
  lemma EscapeCons(t: string)
    requires t != []
    ensures ReplaceAll(t, "'", QuoteEscape)
         == (if t[0] == '\'' then QuoteEscape else [t[0]]) + ReplaceAll(t[1..], "'", QuoteEscape)
  {
    assert t[..1] == [t[0]];
  }

  /** The escape sequence, read inside single quotes, stands for one `'`
      and leaves the lexer inside single quotes again. */
  lemma LexQuoteEscape(tail: string)
    ensures Lex(QuoteEscape + tail, InSingle) == Prepend("'", Lex(tail, InSingle))
  {
    var u3 := "\"'" + tail;
    calc {
      Lex(QuoteEscape + tail, InSingle);
      { assert QuoteEscape + tail == "'" + ("\"" + ("'" + u3)); }
      Lex("'" + ("\"" + ("'" + u3)), InSingle);
      { LexCons('\'', "\"" + ("'" + u3), InSingle); PrependNothing(Lex("\"" + ("'" + u3), Plain)); }
      Lex("\"" + ("'" + u3), Plain);
      { LexCons('"', "'" + u3, Plain); PrependNothing(Lex("'" + u3, InDouble)); }
      Lex("'" + u3, InDouble);
      { LexCons('\'', u3, InDouble); }
      Prepend("'", Lex(u3, InDouble));
      { LexCons('"', "'" + tail, InDouble); PrependNothing(Lex("'" + tail, Plain));
        LexCons('\'', tail, Plain); PrependNothing(Lex(tail, InSingle)); }
      Prepend("'", Lex(tail, InSingle));
    }
  }

  /** Inside single quotes, the escaped text reads back as the original text,
      whatever follows the closing quote. */
  lemma {:induction false} LexEscaped(t: string, rest: string)
    ensures Lex(ReplaceAll(t, "'", QuoteEscape) + "'" + rest, InSingle) == Prepend(t, Lex(rest, Plain))
    decreases |t|
  {
    if t == [] {
      assert ReplaceAll(t, "'", QuoteEscape) + "'" + rest == "'" + rest;
      LexCons('\'', rest, InSingle);
      PrependNothing(Lex(rest, Plain));
    } else {
      LexEscaped(t[1..], rest);
      LexEscapedStep(t, rest);
    }
  }

  /** One character more in front of the escaped text is one character
      more in front of what it reads back as. */
  lemma LexEscapedStep(t: string, rest: string)
    requires t != []
    requires Lex(ReplaceAll(t[1..], "'", QuoteEscape) + "'" + rest, InSingle) == Prepend(t[1..], Lex(rest, Plain))
    ensures Lex(ReplaceAll(t, "'", QuoteEscape) + "'" + rest, InSingle) == Prepend(t, Lex(rest, Plain))
  {
    var r := ReplaceAll(t[1..], "'", QuoteEscape);
    var head := if t[0] == '\'' then QuoteEscape else [t[0]];
    EscapeCons(t);
    Regroup(head, r, "'", rest);
    LexHead(t[0], r + "'" + rest);
    PrependTwice([t[0]], t[1..], Lex(rest, Plain));
    assert [t[0]] + t[1..] == t;
  }

  /** Inside single quotes, a character other than `'` stands for itself
      and the escape sequence stands for `'`. */
  lemma LexHead(c: char, tail: string)
    ensures Lex((if c == '\'' then QuoteEscape else [c]) + tail, InSingle) == Prepend([c], Lex(tail, InSingle))
  {
    if c == '\'' {
      LexQuoteEscape(tail);
      assert "'" == [c];
    } else {
      LexCons(c, tail, InSingle);
    }
  }

  lemma Regroup(a: string, b: string, c: string, d: string)
    ensures (a + b) + c + d == a + (b + c + d)
  {
  }

  lemma PrependTwice(a: string, b: string, w: Option<string>)
    ensures Prepend(a, Prepend(b, w)) == Prepend(a + b, w)
  {
    if w.Some? {
      assert a + (b + w.value) == (a + b) + w.value;
    }
  }

  /** `shlex.quote` always produces exactly one shell word, and that word
      reads back as the original string: the quoted text is passed as a
      single argument whatever blanks or metacharacters it holds. */
  lemma QuoteIsOneWord(s: string)
    ensures SingleWord(Quote(s)) == Some(s)
  {
    if s == [] {
      assert Quote(s) == "'" + ("'" + "");
      LexCons('\'', "'" + "", Plain);
      LexCons('\'', "", InSingle);
      PrependNothing(Lex("'" + "", InSingle));
      PrependNothing(Lex("", Plain));
    } else if AllSafe(s) {
      LexSafe(s);
    } else {
      var body := ReplaceAll(s, "'", QuoteEscape) + "'" + "";
      LexEscaped(s, "");
      assert Quote(s) == "'" + body;
      LexCons('\'', body, Plain);
      PrependNothing(Lex(body, InSingle));
      assert s + [] == s;
    }
  }
}
