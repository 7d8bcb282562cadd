/**
 * The chunked response body: an append-only text buffer holding the chunk
 * framing of section 4.1 of RFC 7230, `hex-length CRLF data CRLF` per chunk
 * and `0 CRLF` for the last chunk. A chunk's length is its number of
 * characters, which stands for Java's `String.length()`; the two agree on
 * text without characters above U+FFFF. No final CRLF follows the last chunk.
 */
module Chunked {
  import opened Wrappers

  const CRLF: string := "\r\n"

  // ---------------------------------------------------------------------
  // Hexadecimal lengths (`Integer.toHexString`)

  predicate IsHexDigit(c: char)
  {
    '0' <= c <= '9' || 'a' <= c <= 'f' || 'A' <= c <= 'F'
  }

  predicate IsLowerHexDigit(c: char)
  {
    '0' <= c <= '9' || 'a' <= c <= 'f'
  }

  function HexDigitValue(c: char): (d: nat)
    requires IsHexDigit(c)
    ensures d < 16
  {
    if '0' <= c <= '9' then c as int - '0' as int
    else if 'a' <= c <= 'f' then c as int - 'a' as int + 10
    else c as int - 'A' as int + 10
  }

  function HexDigitChar(d: nat): (c: char)
    requires d < 16
    ensures IsLowerHexDigit(c) && IsHexDigit(c) && HexDigitValue(c) == d
  {
    if d < 10 then ('0' as int + d) as char else ('a' as int + d - 10) as char
  }

  /**
   * `Integer.toHexString(n)` for `n >= 0`: lower-case hexadecimal digits,
   * no leading zeros, and exactly "0" for zero.
   */
  function ToHex(n: nat): (r: string)
    ensures |r| >= 1
    ensures forall i :: 0 <= i < |r| ==> IsLowerHexDigit(r[i])
    ensures r[0] == '0' <==> n == 0
    ensures n == 0 ==> r == "0"
    decreases n
  {
    if n < 16 then [HexDigitChar(n)] else ToHex(n / 16) + [HexDigitChar(n % 16)]
  }

  /** The value of a string of hexadecimal digits, most significant first. */
  function HexValue(s: string): nat
    requires forall i :: 0 <= i < |s| ==> IsHexDigit(s[i])
  {
    if s == [] then 0 else HexValue(s[..|s| - 1]) * 16 + HexDigitValue(s[|s| - 1])
  }

  lemma {:induction false} HexValueOfToHex(n: nat)
    ensures HexValue(ToHex(n)) == n
    decreases n
  {
    var r := ToHex(n);
    if n >= 16 {
      HexValueOfToHex(n / 16);
      assert r[..|r| - 1] == ToHex(n / 16);
    }
  }

  /** The number of hexadecimal digits at the start of `s`. */
  function HexRun(s: string): (k: nat)
    ensures k <= |s|
    ensures forall i :: 0 <= i < k ==> IsHexDigit(s[i])
    ensures k < |s| ==> !IsHexDigit(s[k])
  {
    if s != [] && IsHexDigit(s[0]) then 1 + HexRun(s[1..]) else 0
  }

  lemma {:induction false} HexRunOfToHex(n: nat, tail: string)
    requires tail == [] || !IsHexDigit(tail[0])
    ensures HexRun(ToHex(n) + tail) == |ToHex(n)|
  {
    var h := ToHex(n);
    HexRunAfterDigits(h, tail);
  }

  lemma {:induction false} HexRunAfterDigits(h: string, tail: string)
    requires forall i :: 0 <= i < |h| ==> IsHexDigit(h[i])
    requires tail == [] || !IsHexDigit(tail[0])
    ensures HexRun(h + tail) == |h|
    decreases |h|
  {
    if h != [] {
      assert (h + tail)[1..] == h[1..] + tail;
      HexRunAfterDigits(h[1..], tail);
    }
  }

  // ---------------------------------------------------------------------
  // The framing as a function of the appended pieces

  /** What has been appended to a body: a data chunk, or the last chunk. */
  datatype Piece = Data(chunk: string) | End

  /** The text one call of `appendChunk` or `end` appends. */
  function Frame(p: Piece): string
  {
    match p
    case Data(c) => ToHex(|c|) + CRLF + c + CRLF
    case End => "0" + CRLF
  }

  /** The accumulated content after appending `ps` in order to a fresh body. */
  function Render(ps: seq<Piece>): string
  {
    if ps == [] then [] else Frame(ps[0]) + Render(ps[1..])
  }

  lemma {:induction false} RenderSnoc(ps: seq<Piece>, p: Piece)
    ensures Render(ps + [p]) == Render(ps) + Frame(p)
    decreases |ps|
  {
    if ps == [] {
      assert [p][1..] == [];
    } else {
      assert (ps + [p])[1..] == ps[1..] + [p];
      RenderSnoc(ps[1..], p);
    }
  }

  /** Every frame, and so every non-empty content, starts with a hex digit. */
  lemma FrameStartsWithHexDigit(p: Piece)
    ensures |Frame(p)| > 0 && IsHexDigit(Frame(p)[0])
  {
  }

  lemma RenderEmptyIff(ps: seq<Piece>)
    ensures Render(ps) == [] <==> ps == []
    ensures ps != [] ==> IsHexDigit(Render(ps)[0])
  {
    if ps != [] {
      FrameStartsWithHexDigit(ps[0]);
    }
  }

  // ---------------------------------------------------------------------
  // Reading the framing back

  predicate StartsWithCrlf(s: string)
  {
    |s| >= 2 && s[0] == '\r' && s[1] == '\n'
  }

  /**
   * Reads a chunk-size line: one or more hex digits and CRLF. Answers the
   * size and the text after the line.
   */
  function ReadLength(s: string): (r: Option<(nat, string)>)
    ensures r.Some? ==> |r.value.1| < |s|
  {
    var k := HexRun(s);
    if k == 0 || !StartsWithCrlf(s[k..]) then None
    else Some((HexValue(s[..k]), s[k + 2..]))
  }

  lemma ReadLengthOfHex(n: nat, tail: string)
    ensures ReadLength(ToHex(n) + CRLF + tail) == Some((n, tail))
  {
    var h := ToHex(n);
    var s := h + CRLF + tail;
    assert s == h + (CRLF + tail);
    HexRunOfToHex(n, CRLF + tail);
    assert s[..|h|] == h;
    HexValueOfToHex(n);
    assert s[|h|..] == CRLF + tail;
    assert s[|h| + 2..] == tail;
  }

  /**
   * Reads what follows a chunk-size line of size `n`: the last chunk when
   * `n` is zero and no CRLF follows (as `end()` writes it), otherwise `n`
   * characters of data and CRLF. Answers the piece and the text after it.
   */
  function ReadPiece(n: nat, rest: string): (r: Option<(Piece, string)>)
    ensures r.Some? ==> |r.value.1| <= |rest|
  {
    if n == 0 && !StartsWithCrlf(rest) then Some((End, rest))
    else if |rest| < n + 2 || !StartsWithCrlf(rest[n..]) then None
    else Some((Data(rest[..n]), rest[n + 2..]))
  }

  /** Reads a chunked content: chunk-size lines, each followed by its piece. */
  function Decode(s: string): Option<seq<Piece>>
    decreases |s|
  {
    if s == [] then Some([])
    else
      var (n, rest) :- ReadLength(s);
      var (p, after) :- ReadPiece(n, rest);
      var tail :- Decode(after);
      Some([p] + tail)
  }

  /** Reading a data chunk's frame in front of further frames. */
  lemma DecodeDataFrame(c: string, tail: string)
    requires Decode(tail).Some?
    ensures Decode(Frame(Data(c)) + tail) == Some([Data(c)] + Decode(tail).value)
  {
    var rest := c + CRLF + tail;
    assert Frame(Data(c)) + tail == ToHex(|c|) + CRLF + rest;
    ReadLengthOfHex(|c|, rest);
    assert rest[..|c|] == c;
    assert rest[|c|..] == CRLF + tail;
    assert rest[|c| + 2..] == tail;
    assert ReadPiece(|c|, rest) == Some((Data(c), tail));
  }

  /** Reading the last chunk's frame in front of further frames. */
  lemma DecodeEndFrame(tail: string)
    requires tail == [] || IsHexDigit(tail[0])
    requires Decode(tail).Some?
    ensures Decode(Frame(End) + tail) == Some([End] + Decode(tail).value)
  {
    assert Frame(End) + tail == ToHex(0) + CRLF + tail;
    ReadLengthOfHex(0, tail);
    assert ReadPiece(0, tail) == Some((End, tail));
  }

  /** Reading back what was written recovers every chunk and every end marker. */
  lemma {:induction false} DecodeRender(ps: seq<Piece>)
    ensures Decode(Render(ps)) == Some(ps)
    decreases |ps|
  {
    if ps != [] {
      RenderEmptyIff(ps[1..]);
      DecodeRender(ps[1..]);
      assert [ps[0]] + ps[1..] == ps;
      match ps[0]
      case Data(c) => DecodeDataFrame(c, Render(ps[1..]));
      case End => DecodeEndFrame(Render(ps[1..]));
    }
  }

  // ---------------------------------------------------------------------
  // Bodies

  /** The `Body` a chunked body converts to: plain text without framing semantics. */
  datatype Body = PlainBody(text: string) {
    function Content(): string { text }
  }

  /**
   * `ChunkedBody`: the accumulated `content` and, as ghost state, the pieces
   * appended so far, from which the content is always the rendering.
   */
  class ChunkedBody {
    var content: string
    ghost var Pieces: seq<Piece>

    ghost predicate Valid()
      reads this
    {
      content == Render(Pieces)
    }

    constructor ()
      ensures Valid() && Pieces == [] && content == []
    {
      content := [];
      Pieces := [];
    }

    /** Appends one chunk, `hex(|chunk|) CRLF chunk CRLF`, and answers itself. */
    method AppendChunk(chunk: string) returns (self: ChunkedBody)
      requires Valid()
      modifies this
      ensures Valid() && self == this
      ensures Pieces == old(Pieces) + [Data(chunk)]
      ensures content == old(content) + ToHex(|chunk|) + CRLF + chunk + CRLF
      ensures |content| > 0
    {
      RenderSnoc(Pieces, Data(chunk));
      content := content + ToHex(|chunk|);
      content := content + CRLF;
      content := content + chunk;
      content := content + CRLF;
      Pieces := Pieces + [Data(chunk)];
      self := this;
    }

    /** Appends `body`'s content as one chunk. */
    method AppendBody(body: Body) returns (self: ChunkedBody)
      requires Valid()
      modifies this
      ensures Valid() && self == this
      ensures Pieces == old(Pieces) + [Data(body.Content())]
      ensures content == old(content) + ToHex(|body.Content()|) + CRLF + body.Content() + CRLF
    {
      self := AppendChunk(body.Content());
    }

    /** Appends the last chunk, `0 CRLF`, and answers itself. */
    method End() returns (self: ChunkedBody)
      requires Valid()
      modifies this
      ensures Valid() && self == this
      ensures Pieces == old(Pieces) + [Piece.End]
      ensures content == old(content) + "0" + CRLF
      ensures |content| > 0
    {
      RenderSnoc(Pieces, Piece.End);
      content := content + "0";
      content := content + CRLF;
      Pieces := Pieces + [Piece.End];
      self := this;
    }

    /** The chunks and end markers written so far can be read back from the content. */
    method Content() returns (s: string)
      requires Valid()
      ensures s == content
      ensures Decode(s) == Some(Pieces)
    {
      s := content;
      DecodeRender(Pieces);
    }

    method ToString() returns (s: string)
      requires Valid()
      ensures s == content
      ensures Decode(s) == Some(Pieces)
    {
      s := Content();
    }

    method AsPlainBody() returns (b: Body)
      requires Valid()
      ensures b.Content() == content
      ensures Decode(b.Content()) == Some(Pieces)
    {
      var s := Content();
      b := PlainBody(s);
    }

    method HasContent() returns (b: bool)
      requires Valid()
      ensures b <==> |content| > 0
      ensures b <==> Pieces != []
    {
      RenderEmptyIff(Pieces);
      b := |content| > 0;
    }

    method IsComplex() returns (b: bool)
      ensures b
    {
      b := true;
    }
  }

  /** The two framing examples: one "hello" chunk, and one empty chunk, each then ended. */
  lemma FramingExamples()
    ensures Render([Data("hello"), End]) == "5\r\nhello\r\n0\r\n"
    ensures Render([Data(""), End]) == "0\r\n\r\n0\r\n"
  {
    assert ToHex(5) == "5";
    assert [Data("hello"), End][1..] == [End];
    assert [Data(""), End][1..] == [End];
    assert [End][1..] == [];
  }
}
