/** UTF-8 with surrogate escapes, as Python decodes and encodes it: a byte that is not part of
UTF-8 is read as a lone surrogate, and written back as that byte. */
module Utf8 {
  import opened Ordering
  import opened Numbers

  predicate Continues(b: Byte) {
    0x80 <= b < 0xC0
  }

  /** How many bytes the first code point takes; none if the first byte starts no code point. */
  function FrontLength(s: Bytes): (n: nat)
    requires s != []
    ensures n <= 4 && n <= |s|
    ensures n == 0 ==> s[0] >= 0x80
  {
    if s[0] < 0x80 then 1
    else if 0xC2 <= s[0] < 0xE0 && |s| >= 2 && Continues(s[1]) then 2
    else if 0xE0 <= s[0] < 0xF0 && |s| >= 3 && Continues(s[1]) && Continues(s[2])
      && (s[0] == 0xE0 ==> s[1] >= 0xA0) && (s[0] == 0xED ==> s[1] < 0xA0) then 3
    else if 0xF0 <= s[0] < 0xF5 && |s| >= 4 && Continues(s[1]) && Continues(s[2]) && Continues(s[3])
      && (s[0] == 0xF0 ==> s[1] >= 0x90) && (s[0] == 0xF4 ==> s[1] < 0x90) then 4
    else 0
  }

  function Bits(high: nat, low: nat): nat {
    64 * high + low
  }

  /** The first code point. */
  function Front(s: Bytes): (c: CodePoint)
    requires s != []
    ensures 0xD800 <= c < 0xE000 ==> FrontLength(s) == 0 && 0xDC80 <= c < 0xDD00
  {
    match FrontLength(s)
    case 0 => 0xDC00 + s[0] as nat
    case 1 => s[0] as nat
    case 2 => Bits(s[0] - 0xC0, s[1] - 0x80)
    case 3 => Bits(Bits(s[0] - 0xE0, s[1] - 0x80), s[2] - 0x80)
    case _ => Bits(Bits(Bits(s[0] - 0xF0, s[1] - 0x80), s[2] - 0x80), s[3] - 0x80)
  }

  /** `bytes.decode("utf-8", errors="surrogateescape")`. */
  function Decode(s: Bytes): Text {
    if s == [] then []
    else
      [Front(s)] + Decode(s[Step(s)..])
  }

  /** One code point as bytes; None for the UnicodeEncodeError of a surrogate that is no escape. */
  function EncodeOne(c: CodePoint): Option<Bytes> {
    if c < 0x80 then Some([c])
    else if c < 0x800 then Some([0xC0 + c / 64, 0x80 + c % 64])
    else if 0xDC80 <= c < 0xDD00 then Some([c - 0xDC00])
    else if 0xD800 <= c < 0xE000 then None
    else if c < 0x10000 then Some([0xE0 + c / 4096, 0x80 + c / 64 % 64, 0x80 + c % 64])
    else Some([0xF0 + c / 262144, 0x80 + c / 4096 % 64, 0x80 + c / 64 % 64, 0x80 + c % 64])
  }

  /** `str.encode("utf-8", errors="surrogateescape")`. */
  function Encode(x: Text): Option<Bytes> {
    if x == [] then Some([])
    else
      match (EncodeOne(x[0]), Encode(x[1..]))
      case (Some(e), Some(rest)) => Some(e + rest)
      case _ => None
  }

  lemma BitsSplit(a: nat, b: nat, c: nat, d: nat)
    requires b < 64 && c < 64 && d < 64
    ensures var n := Bits(a, b); n / 64 == a && n % 64 == b
    ensures var n := Bits(Bits(a, b), c); n / 4096 == a && n / 64 % 64 == b && n % 64 == c
    ensures var n := Bits(Bits(Bits(a, b), c), d);
      n / 262144 == a && n / 4096 % 64 == b && n / 64 % 64 == c && n % 64 == d
  {
  }

  /** How many bytes are read for the first code point, or the first escape. */
  function Step(s: Bytes): (k: nat)
    requires s != []
    ensures 0 < k <= |s|
  {
    if FrontLength(s) == 0 then 1 else FrontLength(s)
  }

  lemma FrontEncodes(s: Bytes)
    requires s != []
    ensures EncodeOne(Front(s)) == Some(s[..Step(s)])
  {
    match FrontLength(s)
    case 0 => assert s[..1] == [s[0]];
    case 1 => assert s[..1] == [s[0]];
    case 2 =>
      assert s[..2] == [s[0], s[1]];
      BitsSplit(s[0] - 0xC0, s[1] - 0x80, 0, 0);
    case 3 =>
      assert s[..3] == [s[0], s[1], s[2]];
      BitsSplit(s[0] - 0xE0, s[1] - 0x80, s[2] - 0x80, 0);
    case _ =>
      assert s[..4] == [s[0], s[1], s[2], s[3]];
      BitsSplit(s[0] - 0xF0, s[1] - 0x80, s[2] - 0x80, s[3] - 0x80);
  }

  /** Whatever bytes come in are written out again. */
  lemma {:induction false} Reencodes(s: Bytes)
    ensures Encode(Decode(s)) == Some(s)
    decreases |s|
  {
    if s != [] {
      hide Front, EncodeOne, Step, Decode, Encode;
      var k := Step(s);
      FrontEncodes(s);
      Reencodes(s[k..]);
      DecodeStep(s);
      Halves(s, k);
      EncodeStep(Front(s), Decode(s[k..]), s[..k], s[k..]);
    } else {
      assert Decode(s) == [] && Encode([]) == Some([]);
    }
  }

  /** The bits of a code point in its bytes, six in every byte but the first, and no byte more than
  it needs. */
  predicate Bytewise(c: CodePoint, e: Bytes) {
    || (|e| == 1 && e[0] < 0x80 && c == e[0])
    || (|e| == 2 && 0xC0 <= e[0] < 0xE0 && Continues(e[1]) && c == 64 * (e[0] as int - 0xC0) + (e[1] as int - 0x80) && c >= 0x80)
    || (|e| == 3 && 0xE0 <= e[0] < 0xF0 && Continues(e[1]) && Continues(e[2])
        && c == 4096 * (e[0] as int - 0xE0) + 64 * (e[1] as int - 0x80) + (e[2] as int - 0x80) && c >= 0x800 && !(0xD800 <= c < 0xE000))
    || (|e| == 4 && 0xF0 <= e[0] < 0xF8 && Continues(e[1]) && Continues(e[2]) && Continues(e[3])
        && c == 262144 * (e[0] as int - 0xF0) + 4096 * (e[1] as int - 0x80) + 64 * (e[2] as int - 0x80) + (e[3] as int - 0x80)
        && c >= 0x10000)
  }

  lemma EncodedBytewise(c: CodePoint)
    ensures !(0xD800 <= c < 0xE000) ==> EncodeOne(c).Some? && Bytewise(c, EncodeOne(c).value)
    ensures 0xDC80 <= c < 0xDD00 ==> EncodeOne(c) == Some([c - 0xDC00])
    ensures 0xD800 <= c < 0xE000 && !(0xDC80 <= c < 0xDD00) ==> EncodeOne(c) == None
  {
    var a, b, d := c / 64, c / 4096, c / 262144;
    assert b == a / 64 && d == b / 64;
    assert c == 64 * a + c % 64 && a == 64 * b + a % 64 && b == 64 * d + b % 64;
    if c < 0x80 || 0xD800 <= c < 0xE000 {
    } else if c < 0x800 {
    } else if c < 0x10000 {
    } else {
    }
  }

  /** A code point is read where its bytes stand, and an escape where no code point's bytes do. */
  lemma FrontBytewise(s: Bytes)
    requires s != []
    ensures FrontLength(s) > 0 ==> Bytewise(Front(s), s[..FrontLength(s)])
    ensures FrontLength(s) == 0 ==> Front(s) == 0xDC00 + s[0] as nat && Step(s) == 1
    ensures FrontLength(s) == 0 ==> forall c, e :: Bytewise(c, e) ==> !(e <= s)
  {
    if FrontLength(s) == 0 {
      forall c, e | Bytewise(c, e) ensures !(e <= s) {
        if e <= s {
          assert forall i :: 0 <= i < |e| ==> e[i] == s[i];
        }
      }
    }
  }

  lemma DecodeStep(s: Bytes)
    requires s != []
    ensures Decode(s) == [Front(s)] + Decode(s[Step(s)..])
  {
    hide Front, Step;
  }

  lemma EncodeStep(c: CodePoint, x: Text, e: Bytes, rest: Bytes)
    requires EncodeOne(c) == Some(e) && Encode(x) == Some(rest)
    ensures Encode([c] + x) == Some(e + rest)
  {
    hide EncodeOne;
    assert ([c] + x)[1..] == x;
  }

  /** A text is read back if and only if it was read from bytes. */
  lemma ReadsBackIff(x: Text)
    ensures Encode(x).Some? && Decode(Encode(x).value) == x <==> exists s :: x == Decode(s)
  {
    if s :| x == Decode(s) {
      Reencodes(s);
    }
  }

  /** Texts that were not: two escapes that together are a letter, and a lone surrogate. */
  lemma NotReadBack()
    ensures Encode([0xDCC3, 0xDCA9]) == Encode([0xE9]) == Some([0xC3, 0xA9]) && Decode([0xC3, 0xA9]) == [0xE9]
    ensures Encode([0xD800]) == None
  {
    EncodeSingle(0xDCA9);
    EncodeSingle(0xE9);
    EncodeSingle(0xD800);
    assert [0xDCC3, 0xDCA9][1..] == [0xDCA9];
    assert [0xC3] + [0xA9] == [0xC3, 0xA9];
    assert [0xC3, 0xA9][2..] == [] && [0xE9] + [] == [0xE9];
  }

  lemma EncodeSingle(c: CodePoint)
    ensures Encode([c]) == EncodeOne(c)
  {
    assert [c][1..] == [];
    if EncodeOne(c).Some? {
      assert EncodeOne(c).value + [] == EncodeOne(c).value;
    }
  }
}
