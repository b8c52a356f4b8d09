/**
 * The receive side of the link protocol has no framing: text is collected
 * in a buffer and complete JSON values are peeled off its front, one after
 * another, for as long as the decoder (Python's `JSONDecoder.raw_decode`)
 * finds one. The decoder is a parameter here.
 */
module StreamCodec {
  import opened Wrappers
  import opened Strings
  import opened Seqs
  import Json

  /** A decoded value and the number of characters it occupied. */
  datatype Decoded = Decoded(value: Json.Value, consumed: nat)

  type Decoder = string -> Option<Decoded>

  /** `raw_decode` either fails or consumes a non-empty prefix of its input. */
  ghost predicate ValidDecoder(decode: Decoder)
  {
    forall s :: decode(s).Some? ==> 0 < decode(s).value.consumed <= |s|
  }

  /** Once a complete value stands at the front, more text after it does not
      change what is decoded. This holds of `raw_decode` for objects, arrays,
      strings and the literals, which is what the peer sends. */
  ghost predicate PrefixStable(decode: Decoder)
  {
    forall s, t :: StableAt(decode, s, t)
  }

  ghost predicate StableAt(decode: Decoder, s: string, t: string)
  {
    decode(s).Some? ==> decode(s + t) == decode(s)
  }

  /** The values peeled off a buffer, in order, and the text left for later. */
  datatype Drained = Drained(values: seq<Json.Value>, rest: string)

  /**
   * Peel values off the front of `buf`: skip leading whitespace, stop on an
   * empty buffer or when nothing decodes, otherwise take the value and go on
   * after it. What is left is kept exactly as received, apart from the
   * whitespace in front of it.
   */
  function Drain(buf: string, decode: Decoder): (d: Drained)
    requires ValidDecoder(decode)
    decreases |buf|
  {
    var s := LStrip(buf);
    if s == [] then Drained([], [])
    else
      var r := decode(s);
      if r.None? then Drained([], s)
      else
        var d := Drain(s[r.value.consumed..], decode);
        Drained([r.value.value] + d.values, d.rest)
  }

  /** The same loop as main.py writes it: `buffer.strip()` also removes the
      whitespace at the END of an incomplete remainder. */
  function DrainAsWritten(buf: string, decode: Decoder): (d: Drained)
    requires ValidDecoder(decode)
    decreases |buf|
  {
    var s := Strip(buf);
    if s == [] then Drained([], [])
    else
      var r := decode(s);
      if r.None? then Drained([], s)
      else
        var d := DrainAsWritten(s[r.value.consumed..], decode);
        Drained([r.value.value] + d.values, d.rest)
  }

  /**
   * At most one value per character is peeled; what is kept is a suffix of
   * the buffer, starts with no whitespace and does not decode.
   */
  lemma {:induction false} DrainShape(buf: string, decode: Decoder)
    requires ValidDecoder(decode)
    ensures var d := Drain(buf, decode);
            && |d.values| <= |buf|
            && IsSuffix(d.rest, buf)
            && (d.rest == [] || (!IsSpace(d.rest[0]) && decode(d.rest).None?))
    decreases |buf|
  {
    var s := LStrip(buf);
    if s != [] && decode(s).Some? {
      var n := decode(s).value.consumed;
      DrainShape(s[n..], decode);
      var rest := Drain(s[n..], decode).rest;
      assert IsSuffix(s[n..], s) by {
        assert s[|s| - |s[n..]|..] == s[n..];
      }
      SuffixTransitive(rest, s[n..], s);
      SuffixTransitive(rest, s, buf);
    }
  }

  /** What is kept yields nothing more until more text arrives. */
  lemma DrainRemainderStable(buf: string, decode: Decoder)
    requires ValidDecoder(decode)
    ensures Drain(Drain(buf, decode).rest, decode) == Drained([], Drain(buf, decode).rest)
  {
    DrainShape(buf, decode);
  }

  /**
   * The loop as written takes at most one value per character too; what it
   * keeps has no whitespace at either end and does not decode.
   */
  lemma {:induction false} DrainShapeAsWritten(buf: string, decode: Decoder)
    requires ValidDecoder(decode)
    ensures var d := DrainAsWritten(buf, decode);
            && |d.values| <= |buf|
            && (d.rest == [] || (Strip(d.rest) == d.rest && decode(d.rest).None?))
    decreases |buf|
  {
    var s := Strip(buf);
    StripShorter(buf);
    StripIdempotent(buf);
    if s != [] && decode(s).Some? {
      DrainShapeAsWritten(s[decode(s).value.consumed..], decode);
    }
  }

  lemma StripShorter(s: string)
    ensures |Strip(s)| <= |s|
  {
    assert IsSuffix(LStrip(s), s) && IsPrefix(RStrip(LStrip(s)), LStrip(s));
  }

  /** As written too, what is kept yields nothing more until more text arrives. */
  lemma DrainRemainderStableAsWritten(buf: string, decode: Decoder)
    requires ValidDecoder(decode)
    ensures DrainAsWritten(DrainAsWritten(buf, decode).rest, decode) == Drained([], DrainAsWritten(buf, decode).rest)
  {
    DrainShapeAsWritten(buf, decode);
  }

  /** As written, the kept text need not be a suffix of the buffer: an
      open string literal followed by a blank is kept without the blank. */
  lemma AsWrittenRestNotSuffix(left: string)
    requires '"' !in left
    requires left == [] || !IsSpace(left[|left| - 1])
    ensures ValidDecoder(StringLiteral)
    ensures DrainAsWritten("\"" + left + " ", StringLiteral).rest == "\"" + left
    ensures !IsSuffix("\"" + left, "\"" + left + " ")
  {
    StringLiteralIsDecoder();
    var open := "\"" + left;
    var buf := open + " ";
    OpenChunkStrips(left);
    OpenLiteralIsIncomplete(open);
    assert open[1..] == left;
    var last := if left == [] then '"' else left[|left| - 1];
    assert open[|open| - 1] == last && buf[|buf| - 1] == ' ';
    assert !IsSpace(last) by {
      assert !IsSpace('"');
    }
  }

  lemma {:induction false} LStripAppend(a: string, b: string)
    ensures LStrip(a) == [] ==> LStrip(a + b) == LStrip(b)
    ensures LStrip(a) != [] ==> LStrip(a + b) == LStrip(a) + b
    decreases |a|
  {
    if a == [] {
      assert a + b == b;
    } else if IsSpace(a[0]) {
      assert (a + b)[1..] == a[1..] + b;
      LStripAppend(a[1..], b);
    }
  }

  /**
   * Feeding `a` and then `b` peels the same values, in the same order, and
   * keeps the same remainder as feeding `a + b` at once: the values of `a`,
   * then those of what `a` left followed by `b`.
   */
  lemma {:induction false} DrainAppend(a: string, b: string, decode: Decoder)
    requires ValidDecoder(decode) && PrefixStable(decode)
    ensures Drain(a + b, decode).values
         == Drain(a, decode).values + Drain(Drain(a, decode).rest + b, decode).values
    ensures Drain(a + b, decode).rest == Drain(Drain(a, decode).rest + b, decode).rest
    decreases |a|
  {
    var s := LStrip(a);
    if s == [] {
      DrainAppendBlank(a, b, decode);
    } else if decode(s).None? {
      DrainAppendStuck(a, b, decode);
    } else {
      var r := decode(s).value;
      var tail := s[r.consumed..];
      DrainAppendStep(a, b, decode);
      DrainAppend(tail, b, decode);
      Assemble(r.value, Drain(tail, decode), Drain(tail + b, decode),
               Drain(Drain(tail, decode).rest + b, decode), Drain(a, decode), Drain(a + b, decode));
    }
  }

  /** Sequence bookkeeping for the inductive step of DrainAppend, kept apart
      so that the solver does not unfold Drain while doing it. */
  lemma Assemble(v: Json.Value, x: Drained, y: Drained, z: Drained, da: Drained, dab: Drained)
    requires da == Drained([v] + x.values, x.rest)
    requires dab == Drained([v] + y.values, y.rest)
    requires y.values == x.values + z.values && y.rest == z.rest
    ensures dab.values == da.values + z.values && dab.rest == z.rest
  {
  }

  lemma DrainAppendBlank(a: string, b: string, decode: Decoder)
    requires ValidDecoder(decode) && LStrip(a) == []
    ensures Drain(a, decode) == Drained([], [])
    ensures Drain(a + b, decode) == Drain(Drain(a, decode).rest + b, decode)
  {
    LStripAppend(a, b);
    assert [] + b == b;
    DrainLeadingSpace(a + b, b, decode);
  }

  lemma DrainAppendStuck(a: string, b: string, decode: Decoder)
    requires ValidDecoder(decode)
    requires LStrip(a) != [] && decode(LStrip(a)).None?
    ensures Drain(a, decode) == Drained([], LStrip(a))
    ensures Drain(a + b, decode) == Drain(Drain(a, decode).rest + b, decode)
  {
    LStripAppend(a, b);
    DrainLeadingSpace(a + b, LStrip(a) + b, decode);
  }

  /** One peeled value: the step the induction in DrainAppend rests on. */
  lemma DrainAppendStep(a: string, b: string, decode: Decoder)
    requires ValidDecoder(decode) && PrefixStable(decode)
    requires LStrip(a) != [] && decode(LStrip(a)).Some?
    ensures var r := decode(LStrip(a)).value;
            var tail := LStrip(a)[r.consumed..];
            && Drain(a, decode) == Drained([r.value] + Drain(tail, decode).values, Drain(tail, decode).rest)
            && Drain(a + b, decode) == Drained([r.value] + Drain(tail + b, decode).values, Drain(tail + b, decode).rest)
  {
    var s := LStrip(a);
    var n := decode(s).value.consumed;
    LStripAppend(a, b);
    DrainLeadingSpace(a + b, s + b, decode);
    assert StableAt(decode, s, b);
    assert (s + b)[n..] == s[n..] + b;
  }

  /** Drain starts by skipping whitespace, so two buffers with the same
      stripped front drain alike. */
  lemma DrainLeadingSpace(x: string, y: string, decode: Decoder)
    requires ValidDecoder(decode) && LStrip(x) == LStrip(y)
    ensures Drain(x, decode) == Drain(y, decode)
  {
  }

  /** The buffer after feeding every chunk in turn. */
  function DrainChunks(buf: string, chunks: seq<string>, decode: Decoder): Drained
    requires ValidDecoder(decode)
    decreases |chunks|
  {
    if chunks == [] then Drained([], buf)
    else
      var d := Drain(buf + chunks[0], decode);
      var e := DrainChunks(d.rest, chunks[1..], decode);
      Drained(d.values + e.values, e.rest)
  }

  function Concat(chunks: seq<string>): string
  {
    if chunks == [] then [] else chunks[0] + Concat(chunks[1..])
  }

  /**
   * However the text is cut into chunks, the values delivered are those of
   * the whole text at once, and so is what is left over.
   */
  lemma {:induction false} ChunkingInvariance(buf: string, chunks: seq<string>, decode: Decoder)
    requires ValidDecoder(decode) && PrefixStable(decode)
    ensures chunks != [] ==> DrainChunks(buf, chunks, decode) == Drain(buf + Concat(chunks), decode)
    decreases |chunks|
  {
    if chunks != [] {
      var head, tail := buf + chunks[0], chunks[1..];
      var d := Drain(head, decode);
      assert buf + Concat(chunks) == head + Concat(tail);
      if tail == [] {
        assert head + Concat(tail) == head;
        assert DrainChunks(buf, chunks, decode) == Drained(d.values + [], d.rest);
        assert d.values + [] == d.values;
      } else {
        ChunkingInvariance(d.rest, tail, decode);
        DrainAppend(head, Concat(tail), decode);
        JoinDrains(d, DrainChunks(d.rest, tail, decode), Drain(head + Concat(tail), decode));
        assert DrainChunks(buf, chunks, decode)
            == Drained(d.values + DrainChunks(d.rest, tail, decode).values, DrainChunks(d.rest, tail, decode).rest);
      }
    }
  }

  lemma JoinDrains(d: Drained, e: Drained, whole: Drained)
    requires whole.values == d.values + e.values && whole.rest == e.rest
    ensures Drained(d.values + e.values, e.rest) == whole
  {
  }

  // ---------------------------------------------------------------------
  // A decoder for JSON strings without escapes, enough to show what the
  // two-sided strip does to a string cut after a blank.

  predicate IsQuote(c: char) { c == '"' }

  /** `raw_decode` on text that starts with a string literal without escapes. */
  function StringLiteral(s: string): Option<Decoded>
  {
    if s == [] || s[0] != '"' then None
    else
      var close := FirstIndex(s, IsQuote, 1);
      if close.None? then None
      else Some(Decoded(Json.JStr(s[1..close.value]), close.value + 1))
  }

  lemma StringLiteralIsDecoder()
    ensures ValidDecoder(StringLiteral)
    ensures PrefixStable(StringLiteral)
  {
    forall s, t ensures StableAt(StringLiteral, s, t) {
      if StringLiteral(s).Some? { StringLiteralExtend(s, t); }
    }
  }

  lemma StringLiteralExtend(s: string, t: string)
    requires StringLiteral(s).Some?
    ensures StringLiteral(s + t) == StringLiteral(s)
  {
    FirstIndexExtend(s, t, IsQuote, 1);
    var k := FirstIndex(s, IsQuote, 1).value;
    assert (s + t)[0] == s[0];
    assert (s + t)[1..k] == s[1..k];
  }

  /** The as-written loop fed chunk by chunk. */
  function DrainChunksAsWritten(buf: string, chunks: seq<string>, decode: Decoder): Drained
    requires ValidDecoder(decode)
    decreases |chunks|
  {
    if chunks == [] then Drained([], buf)
    else
      var d := DrainAsWritten(buf + chunks[0], decode);
      var e := DrainChunksAsWritten(d.rest, chunks[1..], decode);
      Drained(d.values + e.values, e.rest)
  }

  lemma OpenLiteralIsIncomplete(s: string)
    requires |s| >= 1 && s[0] == '"' && '"' !in s[1..]
    ensures StringLiteral(s).None?
  {
    forall j | 1 <= j < |s| ensures !IsQuote(s[j]) {
      assert s[j] == s[1..][j - 1];
    }
  }

  lemma ClosedLiteral(body: string)
    requires '"' !in body
    ensures StringLiteral("\"" + body + "\"") == Some(Decoded(Json.JStr(body), |body| + 2))
  {
    var s := "\"" + body + "\"";
    var close := FirstIndex(s, IsQuote, 1);
    forall j | 1 <= j < |body| + 1 ensures !IsQuote(s[j]) {
      assert s[j] == body[j - 1];
    }
    assert IsQuote(s[|body| + 1]);
    assert s[1..|body| + 1] == body;
  }

  /**
   * With the two-sided strip, a string literal cut right after a blank
   * loses that blank: the chunks `"` + left + ` ` and right + `"` deliver
   * left + right, while the same text in one chunk delivers
   * left + " " + right. The smallest instance is left = "a", right = "b".
   */
  lemma {:induction false} AsWrittenLosesBlank(left: string, right: string)
    requires '"' !in left && '"' !in right
    requires left == [] || !IsSpace(left[|left| - 1])
    ensures ValidDecoder(StringLiteral)
    ensures DrainChunksAsWritten([], ["\"" + left + " ", right + "\""], StringLiteral).values
         == [Json.JStr(left + right)]
    ensures DrainAsWritten("\"" + left + " " + right + "\"", StringLiteral).values
         == [Json.JStr(left + " " + right)]
    ensures left + right != left + " " + right
  {
    StringLiteralIsDecoder();
    var c1, c2 := "\"" + left + " ", right + "\"";
    TwoChunksAsWritten(c1, c2, StringLiteral);
    OpenChunkStrips(left);
    OpenLiteralIsIncomplete("\"" + left);
    assert ("\"" + left)[1..] == left;
    assert DrainAsWritten(c1, StringLiteral) == Drained([], "\"" + left);
    RegroupJoined(left, right);
    StrippedLiteral(left + right);
    RegroupWhole(left, right);
    StrippedLiteral(left + " " + right);
    assert |left + right| != |left + " " + right|;
  }

  /** The corrected loop delivers the blank, chunked or not. */
  lemma {:induction false} KeepsBlank(left: string, right: string)
    requires '"' !in left && '"' !in right
    ensures ValidDecoder(StringLiteral)
    ensures DrainChunks([], ["\"" + left + " ", right + "\""], StringLiteral).values
         == [Json.JStr(left + " " + right)]
  {
    StringLiteralIsDecoder();
    var chunks := ["\"" + left + " ", right + "\""];
    ChunkingInvariance([], chunks, StringLiteral);
    ConcatTwo(chunks[0], chunks[1]);
    assert chunks == [chunks[0], chunks[1]];
    Regroup(left, right);
    DrainLiteral(left + " " + right);
  }

  lemma RegroupJoined(left: string, right: string)
    ensures ("\"" + left) + (right + "\"") == "\"" + (left + right) + "\""
  {
  }

  lemma RegroupWhole(left: string, right: string)
    ensures "\"" + left + " " + right + "\"" == "\"" + (left + " " + right) + "\""
  {
  }

  lemma ConcatTwo(c1: string, c2: string)
    ensures [] + Concat([c1, c2]) == c1 + c2
  {
    assert [c1, c2][1..] == [c2];
    assert [c2][1..] == [];
    assert Concat([c2]) == c2 + Concat([]);
    assert c2 + [] == c2;
    assert Concat([c1, c2]) == c1 + Concat([c2]);
    assert [] + (c1 + c2) == c1 + c2;
  }

  lemma Regroup(left: string, right: string)
    ensures ("\"" + left + " ") + (right + "\"") == "\"" + (left + " " + right) + "\""
  {
  }

  lemma DrainLiteral(body: string)
    requires '"' !in body
    ensures ValidDecoder(StringLiteral)
    ensures Drain("\"" + body + "\"", StringLiteral).values == [Json.JStr(body)]
  {
    StringLiteralIsDecoder();
    var s := "\"" + body + "\"";
    ClosedLiteral(body);
    assert s[|body| + 2..] == [];
  }

  lemma TwoChunksAsWritten(c1: string, c2: string, decode: Decoder)
    requires ValidDecoder(decode)
    ensures DrainChunksAsWritten([], [c1, c2], decode).values
         == DrainAsWritten(c1, decode).values
          + DrainAsWritten(DrainAsWritten(c1, decode).rest + c2, decode).values
  {
    var chunks := [c1, c2];
    assert [] + c1 == c1;
    assert chunks[1..] == [c2];
    assert chunks[1..][1..] == [];
    var d := DrainAsWritten(c1, decode);
    var e := DrainAsWritten(d.rest + c2, decode);
    assert DrainChunksAsWritten(d.rest, [c2], decode).values == e.values + [];
    assert e.values + [] == e.values;
  }

  lemma OpenChunkStrips(left: string)
    requires left == [] || !IsSpace(left[|left| - 1])
    ensures Strip("\"" + left + " ") == "\"" + left
  {
    var c1 := "\"" + left + " ";
    assert !IsSpace('"') && IsSpace(' ');
    assert LStrip(c1) == c1;
    assert c1[..|c1| - 1] == "\"" + left;
    assert RStrip(c1) == RStrip("\"" + left);
    var open := "\"" + left;
    assert open[|open| - 1] == if left == [] then '"' else left[|left| - 1];
  }

  lemma StrippedLiteral(body: string)
    requires '"' !in body
    ensures ValidDecoder(StringLiteral)
    ensures Strip("\"" + body + "\"") == "\"" + body + "\""
    ensures DrainAsWritten("\"" + body + "\"", StringLiteral).values == [Json.JStr(body)]
  {
    StringLiteralIsDecoder();
    var s := "\"" + body + "\"";
    assert s[0] == '"' && s[|s| - 1] == '"';
    StripTrimmed(s);
    ClosedLiteral(body);
    WholeValueAsWritten(s, Json.JStr(body), StringLiteral);
  }

  /** Text that is one whole value with no blank around it is peeled as
      that one value. */
  lemma WholeValueAsWritten(s: string, v: Json.Value, decode: Decoder)
    requires ValidDecoder(decode) && s != [] && Strip(s) == s
    requires decode(s) == Some(Decoded(v, |s|))
    ensures DrainAsWritten(s, decode).values == [v]
  {
    assert s[|s|..] == [];
    assert DrainAsWritten([], decode).values == [];
  }
}
