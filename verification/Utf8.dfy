/** The table-driven UTF-8 decoder of the tracer (third-party/uu.spdr/src/chars.c:9-56), against
    the definition of UTF-8 in RFC 3629.

    Bytes and 32-bit words are integers; masking with 2^k - 1 is a remainder, and joining a
    shifted word with the low six bits of a byte is a sum. */
module Utf8 {
  import DivMod
  import opened Sequences

  type Byte = x: int | 0 <= x < 256
  type Word32 = x: int | 0 <= x < 0x1_0000_0000

  const UTF8_ACCEPT: nat := 0
  const UTF8_REJECT: nat := 1

  /** Sixteen entries of the table. */
  function Row(k: nat): (r: seq<nat>)
    requires k < 25
    ensures |r| == 16
  {
    if k < 8 then [0, 0, 0, 0, 0, 0, 0, 0, 0, 0, 0, 0, 0, 0, 0, 0]
    else if k == 8 then [1, 1, 1, 1, 1, 1, 1, 1, 1, 1, 1, 1, 1, 1, 1, 1]
    else if k == 9 then [9, 9, 9, 9, 9, 9, 9, 9, 9, 9, 9, 9, 9, 9, 9, 9]
    else if k < 12 then [7, 7, 7, 7, 7, 7, 7, 7, 7, 7, 7, 7, 7, 7, 7, 7]
    else if k == 12 then [8, 8, 2, 2, 2, 2, 2, 2, 2, 2, 2, 2, 2, 2, 2, 2]
    else if k == 13 then [2, 2, 2, 2, 2, 2, 2, 2, 2, 2, 2, 2, 2, 2, 2, 2]
    else if k == 14 then [0xa, 3, 3, 3, 3, 3, 3, 3, 3, 3, 3, 3, 3, 4, 3, 3]
    else if k == 15 then [0xb, 6, 6, 6, 5, 8, 8, 8, 8, 8, 8, 8, 8, 8, 8, 8]
    else if k == 16 then [0, 1, 2, 3, 5, 8, 7, 1, 1, 1, 4, 6, 1, 1, 1, 1]
    else if k == 17 then [1, 1, 1, 1, 1, 1, 1, 1, 1, 1, 1, 1, 1, 1, 1, 1]
    else if k == 18 then [1, 0, 1, 1, 1, 1, 1, 0, 1, 0, 1, 1, 1, 1, 1, 1]
    else if k == 19 then [1, 2, 1, 1, 1, 1, 1, 2, 1, 2, 1, 1, 1, 1, 1, 1]
    else if k == 20 then [1, 1, 1, 1, 1, 1, 1, 2, 1, 1, 1, 1, 1, 1, 1, 1]
    else if k == 21 then [1, 2, 1, 1, 1, 1, 1, 1, 1, 2, 1, 1, 1, 1, 1, 1]
    else if k == 22 then [1, 1, 1, 1, 1, 1, 1, 3, 1, 3, 1, 1, 1, 1, 1, 1]
    else if k == 23 then [1, 3, 1, 1, 1, 1, 1, 3, 1, 3, 1, 1, 1, 1, 1, 1]
    else [1, 3, 1, 1, 1, 1, 1, 1, 1, 1, 1, 1, 1, 1, 1, 1]
  }

  /** utf8d: the class of each byte, then sixteen transitions for each of nine states. */
  function Utf8d(i: nat): nat
    requires i < 400
  {
    Row(i / 16)[i % 16]
  }

  /** 0xff >> kind, as one more than the mask. */
  function FirstByteRange(kind: nat): nat {
    match kind
    case 0 => 256
    case 1 => 128
    case 2 => 64
    case 3 => 32
    case 4 => 16
    case 5 => 8
    case 6 => 4
    case 7 => 2
    case _ => 1
  }

  /** A shifted code has six bits left for the byte. */
  lemma ShiftedCode(code: Word32)
    ensures (code * 64) % 0x1_0000_0000 <= 0x1_0000_0000 - 64
  {
    DivMod.QuotientIs(code * 64, code / 0x400_0000, 64 * (code % 0x400_0000), 0x1_0000_0000);
  }

  function NextCode(state: nat, code: Word32, byte: Byte): Word32 {
    if state != UTF8_ACCEPT then
      ShiftedCode(code);
      (code * 64) % 0x1_0000_0000 + byte % 64
    else
      byte % FirstByteRange(Utf8d(byte))
  }

  function NextState(state: nat, byte: Byte): (s: nat)
    requires state < 9
  {
    TransitionBounds(state, byte);
    Utf8d(256 + state * 16 + Utf8d(byte))
  }

  // The table in words.

  lemma LowClasses(byte: Byte)
    requires byte < 0xC0
    ensures Utf8d(byte) == if byte <= 0x7F then 0 else if byte <= 0x8F then 1 else if byte <= 0x9F then 9 else 7
  {
  }

  lemma HighClasses(byte: Byte)
    requires 0xC0 <= byte
    ensures byte <= 0xDF ==> Utf8d(byte) == if byte <= 0xC1 then 8 else 2
    ensures 0xE0 <= byte <= 0xEF ==> Utf8d(byte) == if byte == 0xE0 then 0xa else if byte == 0xED then 4 else 3
    ensures 0xF0 <= byte ==>
              Utf8d(byte) == if byte == 0xF0 then 0xb else if byte <= 0xF3 then 6 else if byte == 0xF4 then 5 else 8
  {
    var k := byte / 16;
    assert k == 12 || k == 13 || k == 14 || k == 15;
  }

  lemma ClassBounds(byte: Byte)
    ensures Utf8d(byte) < 12
    ensures Utf8d(byte)
         == if byte <= 0x7F then 0
            else if byte <= 0x8F then 1
            else if byte <= 0x9F then 9
            else if byte <= 0xBF then 7
            else if byte <= 0xC1 then 8
            else if byte <= 0xDF then 2
            else if byte == 0xE0 then 0xa
            else if byte == 0xED then 4
            else if byte <= 0xEF then 3
            else if byte == 0xF0 then 0xb
            else if byte <= 0xF3 then 6
            else if byte == 0xF4 then 5
            else 8
  {
    if byte < 0xC0 {
      LowClasses(byte);
    } else {
      HighClasses(byte);
    }
  }

  lemma TransitionBounds(state: nat, byte: Byte)
    requires state < 9
    ensures 256 + state * 16 + Utf8d(byte) < 400
  {
    ClassBounds(byte);
  }

  predicate Tail(b: int) {
    0x80 <= b <= 0xBF
  }

  /** Where the table leads from each state. */
  lemma Transitions(state: nat, byte: Byte)
    requires state < 9
    ensures NextState(state, byte) ==
      match state
      case 0 =>
        if byte <= 0x7F then 0
        else if 0xC2 <= byte <= 0xDF then 2
        else if byte == 0xE0 then 4
        else if byte == 0xED then 5
        else if 0xE1 <= byte <= 0xEF then 3
        else if byte == 0xF0 then 6
        else if 0xF1 <= byte <= 0xF3 then 7
        else if byte == 0xF4 then 8
        else 1
      case 2 => if Tail(byte) then 0 else 1
      case 3 => if Tail(byte) then 2 else 1
      case 4 => if 0xA0 <= byte <= 0xBF then 2 else 1
      case 5 => if 0x80 <= byte <= 0x9F then 2 else 1
      case 6 => if 0x90 <= byte <= 0xBF then 3 else 1
      case 7 => if Tail(byte) then 3 else 1
      case 8 => if 0x80 <= byte <= 0x8F then 3 else 1
      case _ => 1
  {
    ClassBounds(byte);
    hide Utf8d;
    TransitionRow(state, Utf8d(byte));
  }

  lemma TransitionRow(state: nat, kind: nat)
    requires state < 9 && kind < 12
    ensures Utf8d(256 + state * 16 + kind) == Row(16 + state)[kind]
  {
  }

  // RFC 3629.

  /** A character number that UTF-8 can encode (section 3): no surrogates. */
  predicate Scalar(c: int) {
    0 <= c <= 0xD7FF || 0xE000 <= c <= 0x10FFFF
  }

  /** The rules UTF8-1 to UTF8-4 of section 4. */
  predicate WellFormed(s: seq<Byte>) {
    || (|s| == 1 && s[0] <= 0x7F)
    || (|s| == 2 && 0xC2 <= s[0] <= 0xDF && Tail(s[1]))
    || (|s| == 3 && Tail(s[2])
        && (|| (s[0] == 0xE0 && 0xA0 <= s[1] <= 0xBF)
            || (0xE1 <= s[0] <= 0xEC && Tail(s[1]))
            || (s[0] == 0xED && 0x80 <= s[1] <= 0x9F)
            || (0xEE <= s[0] <= 0xEF && Tail(s[1]))))
    || (|s| == 4 && Tail(s[2]) && Tail(s[3])
        && (|| (s[0] == 0xF0 && 0x90 <= s[1] <= 0xBF)
            || (0xF1 <= s[0] <= 0xF3 && Tail(s[1]))
            || (s[0] == 0xF4 && 0x80 <= s[1] <= 0x8F)))
  }

  /** Six more bits. */
  function Join(high: int, tail: Byte): int {
    high * 64 + (tail as int - 0x80)
  }

  /** The character number whose bits a well-formed sequence distributes (section 3). */
  function Number(s: seq<Byte>): int
    requires WellFormed(s)
  {
    var first: int := s[0];
    if |s| == 1 then first
    else if |s| == 2 then Join(first - 0xC0, s[1])
    else if |s| == 3 then Join(Join(first - 0xE0, s[1]), s[2])
    else Join(Join(Join(first - 0xF0, s[1]), s[2]), s[3])
  }

  /** The table of section 3. */
  function Encode(c: int): seq<Byte>
    requires Scalar(c)
  {
    if c <= 0x7F then [c]
    else if c <= 0x7FF then [0xC0 + c / 64, 0x80 + c % 64]
    else if c <= 0xFFFF then [0xE0 + c / 64 / 64, 0x80 + c / 64 % 64, 0x80 + c % 64]
    else [0xF0 + c / 64 / 64 / 64, 0x80 + c / 64 / 64 % 64, 0x80 + c / 64 % 64, 0x80 + c % 64]
  }

  lemma JoinSplits(high: int, tail: Byte)
    requires Tail(tail)
    ensures Join(high, tail) / 64 == high && Join(high, tail) % 64 == tail - 0x80
  {
  }

  /** The well-formed sequences are exactly the encodings of the scalars, each of one. */
  lemma WellFormedIsEncoding(s: seq<Byte>)
    requires WellFormed(s)
    ensures Scalar(Number(s)) && Encode(Number(s)) == s
  {
    if |s| == 3 {
      ThreeBytes(s);
    } else if |s| == 4 {
      FourBytes(s);
    }
  }

  lemma ThreeBytes(s: seq<Byte>)
    requires WellFormed(s) && |s| == 3
    ensures Scalar(Number(s)) && Encode(Number(s)) == s
  {
    hide Join;
    var first: int := s[0];
    JoinSplits(first - 0xE0, s[1]);
    JoinSplits(Join(first - 0xE0, s[1]), s[2]);
  }

  lemma FourBytes(s: seq<Byte>)
    requires WellFormed(s) && |s| == 4
    ensures Scalar(Number(s)) && Encode(Number(s)) == s
  {
    hide Join;
    var first: int := s[0];
    JoinSplits(first - 0xF0, s[1]);
    JoinSplits(Join(first - 0xF0, s[1]), s[2]);
    JoinSplits(Join(Join(first - 0xF0, s[1]), s[2]), s[3]);
  }

  lemma EncodingIsWellFormed(c: int)
    requires Scalar(c)
    ensures WellFormed(Encode(c)) && Number(Encode(c)) == c
  {
    assert Join(c / 64, 0x80 + c % 64) == c;
    if c > 0x7FF {
      assert Join(c / 64 / 64, 0x80 + c / 64 % 64) == c / 64;
    }
    if c > 0xFFFF {
      assert Join(c / 64 / 64 / 64, 0x80 + c / 64 / 64 % 64) == c / 64 / 64;
    }
  }

  // Runs of the decoder.

  /** State, code point so far, and the code points delivered: those in the accepting state. */
  datatype Decoding = Decoding(state: nat, code: Word32, delivered: seq<int>)

  function Feed(d: Decoding, byte: Byte): (r: Decoding)
    requires d.state < 9
    ensures r.state < 9
  {
    Transitions(d.state, byte);
    var state, code := NextState(d.state, byte), NextCode(d.state, d.code, byte);
    Decoding(state, code, if state == UTF8_ACCEPT then d.delivered + [code] else d.delivered)
  }

  function FeedAll(d: Decoding, bytes: seq<Byte>): (r: Decoding)
    requires d.state < 9
    ensures r.state < 9
    decreases |bytes|
  {
    if bytes == [] then d else FeedAll(Feed(d, bytes[0]), bytes[1..])
  }

  function Accepting(code: Word32, delivered: seq<int>): Decoding {
    Decoding(UTF8_ACCEPT, code, delivered)
  }

  function Concat(chars: seq<seq<Byte>>): seq<Byte> {
    if chars == [] then [] else chars[0] + Concat(chars[1..])
  }

  ghost predicate AllWellFormed(chars: seq<seq<Byte>>) {
    forall i :: 0 <= i < |chars| ==> WellFormed(chars[i])
  }

  ghost function Numbers(chars: seq<seq<Byte>>): seq<int>
    requires AllWellFormed(chars)
  {
    if chars == [] then [] else [Number(chars[0])] + Numbers(chars[1..])
  }

  lemma {:induction false} FeedConcat(d: Decoding, a: seq<Byte>, b: seq<Byte>)
    requires d.state < 9
    ensures FeedAll(d, a + b) == FeedAll(FeedAll(d, a), b)
    decreases |a|
  {
    hide Feed;
    if a == [] {
      assert a + b == b;
    } else {
      assert (a + b)[1..] == a[1..] + b;
      FeedConcat(Feed(d, a[0]), a[1..], b);
    }
  }

  /** Rejection is final. */
  lemma {:induction false} RejectIsAbsorbing(d: Decoding, bytes: seq<Byte>)
    requires d.state == UTF8_REJECT
    ensures FeedAll(d, bytes).state == UTF8_REJECT && FeedAll(d, bytes).delivered == d.delivered
    decreases |bytes|
  {
    if bytes != [] {
      Transitions(d.state, bytes[0]);
      RejectIsAbsorbing(Feed(d, bytes[0]), bytes[1..]);
    }
  }

  /** The bytes t that bring the decoder from a state to the end of a character. */
  predicate Completes(state: nat, t: seq<Byte>) {
    match state
    case 0 => t == []
    case 2 => |t| == 1 && Tail(t[0])
    case 3 => |t| == 2 && Tail(t[0]) && Tail(t[1])
    case 4 => |t| == 2 && 0xA0 <= t[0] <= 0xBF && Tail(t[1])
    case 5 => |t| == 2 && 0x80 <= t[0] <= 0x9F && Tail(t[1])
    case 6 => |t| == 3 && 0x90 <= t[0] <= 0xBF && Tail(t[1]) && Tail(t[2])
    case 7 => |t| == 3 && Tail(t[0]) && Tail(t[1]) && Tail(t[2])
    case 8 => |t| == 3 && 0x80 <= t[0] <= 0x8F && Tail(t[1]) && Tail(t[2])
    case _ => false
  }

  lemma WellFormedByStates(s: seq<Byte>)
    ensures WellFormed(s) <==> s != [] && Completes(NextState(UTF8_ACCEPT, s[0]), s[1..])
  {
    hide NextState;
    if s != [] {
      Transitions(UTF8_ACCEPT, s[0]);
    }
  }

  lemma CompletesStep(state: nat, t: seq<Byte>)
    requires 2 <= state < 9 && t != []
    ensures Completes(state, t) <==> Completes(NextState(state, t[0]), t[1..])
  {
    hide NextState;
    Transitions(state, t[0]);
  }

  function JoinAll(code: int, t: seq<Byte>): int
    decreases |t|
  {
    if t == [] then code else JoinAll(Join(code, t[0]), t[1..])
  }

  function CodeBound(more: nat): nat {
    if more <= 1 then 0x400_0000 else if more == 2 then 0x10_0000 else 0x4000
  }

  /** The bytes after the first deliver one code point, at the last of them. */
  lemma {:induction false} CompletionDelivers(d: Decoding, t: seq<Byte>)
    requires 2 <= d.state < 9 && Completes(d.state, t) && d.code < CodeBound(|t|)
    ensures JoinAll(d.code, t) >= 0 && JoinAll(d.code, t) < 0x1_0000_0000
    ensures FeedAll(d, t) == Accepting(JoinAll(d.code, t), d.delivered + [JoinAll(d.code, t)])
    decreases |t|
  {
    hide NextState;
    Transitions(d.state, t[0]);
    CompletesStep(d.state, t);
    var next := Feed(d, t[0]);
    assert next.code == Join(d.code, t[0]);
    if |t| > 1 {
      CompletionDelivers(next, t[1..]);
    } else {
      assert t[1..] == [];
    }
  }

  /** The bits of the first byte. */
  lemma FirstBits(byte: Byte)
    ensures byte <= 0x7F ==> byte % FirstByteRange(Utf8d(byte)) == byte
    ensures 0xC2 <= byte <= 0xDF ==> byte % FirstByteRange(Utf8d(byte)) == byte - 0xC0
    ensures 0xE0 <= byte <= 0xEF ==> byte % FirstByteRange(Utf8d(byte)) == byte - 0xE0
    ensures 0xF0 <= byte <= 0xF4 ==> byte % FirstByteRange(Utf8d(byte)) == byte - 0xF0
  {
    hide Utf8d;
    ClassBounds(byte);
  }

  /** A well-formed sequence delivers its number. */
  lemma CharacterDelivers(code: Word32, delivered: seq<int>, s: seq<Byte>)
    requires WellFormed(s)
    ensures 0 <= Number(s) < 0x1_0000_0000
    ensures FeedAll(Accepting(code, delivered), s) == Accepting(Number(s), delivered + [Number(s)])
  {
    hide NextState, Utf8d;
    WellFormedByStates(s);
    Transitions(UTF8_ACCEPT, s[0]);
    FirstBits(s[0]);
    var d := Feed(Accepting(code, delivered), s[0]);
    NumberJoins(s);
    if |s| == 1 {
      assert s[1..] == [];
    } else {
      CompletionDelivers(d, s[1..]);
    }
  }

  lemma NumberJoins(s: seq<Byte>)
    requires WellFormed(s)
    ensures |s| == 2 ==> Number(s) == JoinAll(s[0] as int - 0xC0, s[1..])
    ensures |s| == 3 ==> Number(s) == JoinAll(s[0] as int - 0xE0, s[1..])
    ensures |s| == 4 ==> Number(s) == JoinAll(s[0] as int - 0xF0, s[1..])
  {
    hide Join;
    if |s| == 4 {
      JoinThree(s[0] as int - 0xF0, s[1], s[2], s[3]);
      assert s[1..] == [s[1], s[2], s[3]];
    } else if |s| == 3 {
      JoinTwo(s[0] as int - 0xE0, s[1], s[2]);
      assert s[1..] == [s[1], s[2]];
    } else if |s| == 2 {
      assert s[1..][1..] == [];
    }
  }

  lemma JoinTwo(code: int, a: Byte, b: Byte)
    ensures JoinAll(code, [a, b]) == Join(Join(code, a), b)
  {
    hide Join;
    assert [a, b][1..] == [b] && [b][1..] == [];
    assert JoinAll(Join(code, a), [b]) == Join(Join(code, a), b);
  }

  lemma JoinThree(code: int, a: Byte, b: Byte, c: Byte)
    ensures JoinAll(code, [a, b, c]) == Join(Join(Join(code, a), b), c)
  {
    hide Join;
    assert [a, b, c][1..] == [b, c];
    JoinTwo(Join(code, a), b, c);
  }

  /** Concatenated characters are accepted and deliver their numbers in order. */
  lemma {:induction false} CharactersDeliver(code: Word32, delivered: seq<int>, chars: seq<seq<Byte>>)
    requires AllWellFormed(chars)
    ensures FeedAll(Accepting(code, delivered), Concat(chars)).state == UTF8_ACCEPT
    ensures FeedAll(Accepting(code, delivered), Concat(chars)).delivered == delivered + Numbers(chars)
    decreases |chars|
  {
    hide WellFormed, Number, Feed;
    if chars != [] {
      CharacterDelivers(code, delivered, chars[0]);
      FeedConcat(Accepting(code, delivered), chars[0], Concat(chars[1..]));
      var number := Number(chars[0]);
      CharactersDeliver(number, delivered + [number], chars[1..]);
      AppendAll(delivered, [number], Numbers(chars[1..]));
    } else {
      NothingAfter(delivered);
    }
  }

  /** Bytes that lead to acceptance begin with the rest of the current character. */
  lemma {:induction false} AcceptedBytesComplete(d: Decoding, bytes: seq<Byte>) returns (n: nat)
    requires d.state < 9 && FeedAll(d, bytes).state == UTF8_ACCEPT
    ensures n <= |bytes| && Completes(d.state, bytes[..n])
    decreases |bytes|
  {
    hide Feed;
    if d.state == UTF8_ACCEPT {
      n := 0;
    } else if d.state == UTF8_REJECT {
      RejectIsAbsorbing(d, bytes);
      assert false;
    } else {
      n := AcceptedBytesComplete(Feed(d, bytes[0]), bytes[1..]);
      n := n + 1;
      CompletesStep(d.state, bytes[..n]);
      FeedState(d, bytes[0]);
      assert bytes[..n][1..] == bytes[1..][..n - 1];
    }
  }

  lemma FeedParts(d: Decoding, byte: Byte)
    requires d.state < 9
    ensures var (state, code) := (NextState(d.state, byte), NextCode(d.state, d.code, byte));
            Feed(d, byte) == Decoding(state, code, if state == UTF8_ACCEPT then d.delivered + [code] else d.delivered)
  {
  }

  lemma FeedState(d: Decoding, byte: Byte)
    requires d.state < 9
    ensures Feed(d, byte).state == NextState(d.state, byte)
  {
  }

  /** An accepted byte string is a concatenation of well-formed sequences. */
  lemma {:induction false} AcceptedIsWellFormed(code: Word32, delivered: seq<int>, bytes: seq<Byte>)
    returns (chars: seq<seq<Byte>>)
    requires FeedAll(Accepting(code, delivered), bytes).state == UTF8_ACCEPT
    ensures AllWellFormed(chars) && Concat(chars) == bytes
    decreases |bytes|
  {
    hide Feed, WellFormed, Number;
    if bytes == [] {
      chars := [];
    } else {
      var d := Accepting(code, delivered);
      FeedState(d, bytes[0]);
      var n := AcceptedBytesComplete(Feed(d, bytes[0]), bytes[1..]);
      var first, rest := bytes[..n + 1], bytes[n + 1..];
      assert first[1..] == bytes[1..][..n];
      WellFormedByStates(first);
      assert bytes == first + rest;
      FeedConcat(d, first, rest);
      CharacterDelivers(code, delivered, first);
      var others := AcceptedIsWellFormed(Number(first), delivered + [Number(first)], rest);
      chars := [first] + others;
      assert chars[1..] == others;
    }
  }

  /** The decoder accepts exactly the strings of section 4 of RFC 3629. */
  lemma AcceptsExactlyUtf8(code: Word32, bytes: seq<Byte>)
    ensures FeedAll(Accepting(code, []), bytes).state == UTF8_ACCEPT
       <==> exists chars :: AllWellFormed(chars) && Concat(chars) == bytes
  {
    if FeedAll(Accepting(code, []), bytes).state == UTF8_ACCEPT {
      var chars := AcceptedIsWellFormed(code, [], bytes);
    }
    if exists chars :: AllWellFormed(chars) && Concat(chars) == bytes {
      var chars :| AllWellFormed(chars) && Concat(chars) == bytes;
      CharactersDeliver(code, [], chars);
    }
  }

  /** What it delivers for such a string is the decoding of section 3. */
  lemma DeliversNumbers(code: Word32, chars: seq<seq<Byte>>)
    requires AllWellFormed(chars)
    ensures FeedAll(Accepting(code, []), Concat(chars)).delivered == Numbers(chars)
  {
    CharactersDeliver(code, [], chars);
  }

  function EncodeAll(cs: seq<int>): seq<Byte>
    requires forall i :: 0 <= i < |cs| ==> Scalar(cs[i])
  {
    if cs == [] then [] else Encode(cs[0]) + EncodeAll(cs[1..])
  }

  /** Round trip: every sequence of scalars is decoded to itself. */
  lemma EncodeDecode(code: Word32, cs: seq<int>)
    requires forall i :: 0 <= i < |cs| ==> Scalar(cs[i])
    ensures FeedAll(Accepting(code, []), EncodeAll(cs)).state == UTF8_ACCEPT
    ensures FeedAll(Accepting(code, []), EncodeAll(cs)).delivered == cs
  {
    var chars := Characters(cs);
    CharactersDeliver(code, [], chars);
  }

  lemma {:induction false} Characters(cs: seq<int>) returns (chars: seq<seq<Byte>>)
    requires forall i :: 0 <= i < |cs| ==> Scalar(cs[i])
    ensures AllWellFormed(chars) && Concat(chars) == EncodeAll(cs) && Numbers(chars) == cs
  {
    hide WellFormed, Number, Encode, Scalar;
    if cs == [] {
      chars := [];
    } else {
      var rest := Characters(cs[1..]);
      EncodingIsWellFormed(cs[0]);
      chars := [Encode(cs[0])] + rest;
      assert chars[1..] == rest;
    }
  }

  /** The other round trip: what an accepted string delivers encodes to that string, so no two
      strings deliver the same characters. */
  lemma DecodeEncode(code: Word32, bytes: seq<Byte>)
    requires FeedAll(Accepting(code, []), bytes).state == UTF8_ACCEPT
    ensures var cs := FeedAll(Accepting(code, []), bytes).delivered;
            (forall i :: 0 <= i < |cs| ==> Scalar(cs[i])) && EncodeAll(cs) == bytes
  {
    hide Feed, WellFormed, Number, Encode, Scalar;
    var chars := AcceptedIsWellFormed(code, [], bytes);
    CharactersDeliver(code, [], chars);
    NumbersEncode(chars);
    assert [] + Numbers(chars) == Numbers(chars);
  }

  lemma {:induction false} NumbersEncode(chars: seq<seq<Byte>>)
    requires AllWellFormed(chars)
    ensures forall i :: 0 <= i < |Numbers(chars)| ==> Scalar(Numbers(chars)[i])
    ensures EncodeAll(Numbers(chars)) == Concat(chars)
  {
    hide WellFormed, Number, Encode, Scalar;
    if chars != [] {
      NumbersEncode(chars[1..]);
      WellFormedIsEncoding(chars[0]);
      assert Numbers(chars)[1..] == Numbers(chars[1..]);
    }
  }

  /** The decoder rejects as soon as no continuation can be well-formed, and not earlier. */
  lemma RejectsExactlyDeadEnds(code: Word32, bytes: seq<Byte>)
    ensures FeedAll(Accepting(code, []), bytes).state == UTF8_REJECT
       <==> !exists more :: FeedAll(Accepting(code, []), bytes + more).state == UTF8_ACCEPT
  {
    hide Feed;
    var d := FeedAll(Accepting(code, []), bytes);
    if d.state == UTF8_REJECT {
      forall more ensures FeedAll(Accepting(code, []), bytes + more).state != UTF8_ACCEPT {
        FeedConcat(Accepting(code, []), bytes, more);
        RejectIsAbsorbing(d, more);
      }
    } else {
      var more := Completion(d);
      FeedConcat(Accepting(code, []), bytes, more);
    }
  }

  lemma {:induction false} Completion(d: Decoding) returns (more: seq<Byte>)
    requires d.state < 9 && d.state != UTF8_REJECT
    ensures FeedAll(d, more).state == UTF8_ACCEPT
    decreases if d.state == 0 then 0 else if d.state == 2 then 1 else if d.state <= 5 then 2 else 3
  {
    hide NextState;
    if d.state == UTF8_ACCEPT {
      more := [];
    } else {
      var byte: Byte := if d.state == 4 then 0xA0 else if d.state == 6 then 0x90 else 0x80;
      Transitions(d.state, byte);
      var rest := Completion(Feed(d, byte));
      more := [byte] + rest;
      assert more[1..] == rest;
    }
  }

  // The decoder's variables.

  class Decoder {
    var state: nat
    var codep: Word32

    ghost predicate Valid()
      reads this
    {
      state < 9
    }

    constructor ()
      ensures Valid() && state == UTF8_ACCEPT && codep == 0
    {
      state, codep := UTF8_ACCEPT, 0;
    }

    /** One byte. */
    method Decode(byte: Byte) returns (r: nat)
      requires Valid()
      modifies this
      ensures Valid() && r == state
      ensures state == NextState(old(state), byte) && codep == NextCode(old(state), old(codep), byte)
    {
      hide Utf8d;
      TransitionBounds(state, byte);
      var kind := Utf8d(byte);
      codep := if state != UTF8_ACCEPT then (codep * 64) % 0x1_0000_0000 + byte % 64 else byte % FirstByteRange(kind);
      Transitions(state, byte);
      state := Utf8d(256 + state * 16 + kind);
      r := state;
    }
  }

  /** The loop around the decoder, which uses a code point whenever the state is accepting. */
  method DecodeString(utf8: seq<Byte>) returns (codePoints: seq<int>, state: nat)
    ensures codePoints == FeedAll(Accepting(0, []), utf8).delivered && state == FeedAll(Accepting(0, []), utf8).state
  {
    hide Feed;
    var decoder := new Decoder();
    codePoints := [];
    for i := 0 to |utf8|
      invariant decoder.Valid() && fresh(decoder)
      invariant FeedAll(Accepting(0, []), utf8) == FeedAll(Decoding(decoder.state, decoder.codep, codePoints), utf8[i..])
    {
      assert utf8[i..][1..] == utf8[i + 1..];
      ghost var before := Decoding(decoder.state, decoder.codep, codePoints);
      var r := decoder.Decode(utf8[i]);
      if r == UTF8_ACCEPT {
        codePoints := codePoints + [decoder.codep];
      }
      FeedParts(before, utf8[i]);
    }
    state := decoder.state;
  }
}
