/** The escaping shared by commands and responses: a payload byte 0xFC travels as two. */
module Framing {
  import opened Bytes

  const ESCAPE_CHAR: u8 := 0xFC

  /** The protocol crate's errors, common to encoders and decoders. */
  datatype Error = UnknownCommand | BadArguments | UnsetLength | SetLength | BufferTooSmall

  function EscapeByte(b: u8): (s: seq<u8>)
    ensures 1 <= |s| <= 2
  {
    if b == ESCAPE_CHAR then [ESCAPE_CHAR, ESCAPE_CHAR] else [b]
  }

  function Escape(p: seq<u8>): (s: seq<u8>)
    ensures |p| <= |s| <= 2 * |p|
  {
    if p == [] then [] else EscapeByte(p[0]) + Escape(p[1..])
  }

  /** A command travels as its escaped payload followed by an escape and the command byte. */
  function CommandFrame(payload: seq<u8>, code: u8): seq<u8> {
    Escape(payload) + [ESCAPE_CHAR, code]
  }

  /** A response travels as an escape and the response byte followed by its escaped payload. */
  function ResponseFrame(code: u8, payload: seq<u8>): seq<u8> {
    [ESCAPE_CHAR, code] + Escape(payload)
  }

  lemma {:induction false} EscapeConcat(a: seq<u8>, b: seq<u8>)
    ensures Escape(a + b) == Escape(a) + Escape(b)
  {
    if a == [] {
      assert a + b == b;
    } else {
      assert (a + b)[0] == a[0] && (a + b)[1..] == a[1..] + b;
      EscapeConcat(a[1..], b);
    }
  }

  lemma EscapeAppend(a: seq<u8>, b: u8)
    ensures Escape(a + [b]) == Escape(a) + EscapeByte(b)
  {
    EscapeConcat(a, [b]);
    assert Escape([b]) == EscapeByte(b) + Escape([]);
  }

  /** Payloads without the escape byte travel unchanged, and only those do. */
  lemma {:induction false} EscapeIsIdentity(p: seq<u8>)
    ensures Escape(p) == p <==> ESCAPE_CHAR !in p
    ensures |Escape(p)| == |p| <==> ESCAPE_CHAR !in p
  {
    if p != [] {
      EscapeIsIdentity(p[1..]);
      assert p == [p[0]] + p[1..];
      assert ESCAPE_CHAR in p <==> p[0] == ESCAPE_CHAR || ESCAPE_CHAR in p[1..];
    }
  }

  // ---- one byte at a time ---------------------------------------------------

  /** What `render_byte` does: the count's increment, the byte sent, and the new `sent_escape`. */
  datatype Rendered = Rendered(increment: nat, out: Option<u8>, sentEscape: bool)

  function Render(sentEscape: bool, b: u8): Rendered {
    if b == ESCAPE_CHAR && !sentEscape then Rendered(0, Some(ESCAPE_CHAR), true) else Rendered(1, Some(b), false)
  }

  function AsSeq(b: Option<u8>): seq<u8> {
    if b.Some? then [b.value] else []
  }

  /** The bytes still to come when `count` payload bytes are out and `sentEscape` says whether
      the first half of an escape pair is. */
  function Pending(payload: seq<u8>, count: nat, sentEscape: bool): seq<u8>
    requires count <= |payload|
    requires sentEscape ==> count < |payload| && payload[count] == ESCAPE_CHAR
  {
    if sentEscape then Escape(payload[count..])[1..] else Escape(payload[count..])
  }

  lemma RenderPending(payload: seq<u8>, count: nat, sentEscape: bool)
    requires count < |payload|
    requires sentEscape ==> payload[count] == ESCAPE_CHAR
    ensures var r := Render(sentEscape, payload[count]);
      && (r.sentEscape ==> r.increment == 0 && payload[count] == ESCAPE_CHAR)
      && r.out.Some?
      && Pending(payload, count, sentEscape)
         == [r.out.value] + Pending(payload, count + r.increment, r.sentEscape)
  {
    var rest := payload[count..];
    assert rest[0] == payload[count] && rest[1..] == payload[count + 1..];
    assert Escape(rest) == EscapeByte(payload[count]) + Escape(payload[count + 1..]);
  }
}
