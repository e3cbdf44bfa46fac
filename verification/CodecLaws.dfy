/** The stored form of values, in arithmetic: which bytes are text, and what the bytes of a number are. */
module CodecLaws {
  import opened Common
  import opened Bytes
  import opened TupleCodec

  // ---- text ----

  /** A Unicode scalar value: no surrogate. */
  predicate Scalar(c: int) { 0 <= c < 0x11_0000 && !(0xD800 <= c < 0xE000) }

  /** The UTF-8 form of a scalar value: six bits in each byte after the first. */
  function Utf8(c: int): (b: seq<Byte>)
    requires Scalar(c)
    ensures b != []
  {
    if c < 0x80 then [c]
    else if c < 0x800 then [0xC0 + c / 64, 0x80 + c % 64]
    else if c < 0x1_0000 then [0xE0 + c / 4096, 0x80 + c / 64 % 64, 0x80 + c % 64]
    else [0xF0 + c / 262144, 0x80 + c / 4096 % 64, 0x80 + c / 64 % 64, 0x80 + c % 64]
  }

  function Text(cs: seq<int>): seq<Byte>
    requires forall i :: 0 <= i < |cs| ==> Scalar(cs[i])
  {
    if cs == [] then [] else Utf8(cs[0]) + Text(cs[1..])
  }

  ghost predicate IsText(b: seq<Byte>) {
    exists cs: seq<int> :: (forall i :: 0 <= i < |cs| ==> Scalar(cs[i])) && b == Text(cs)
  }

  /** Bytes are valid text exactly when they are the UTF-8 forms of some scalar values, one after the other. */
  lemma {:induction false} ValidExactly(b: seq<Byte>)
    ensures ValidUtf8(b) <==> IsText(b)
    decreases |b|
  {
    if ValidUtf8(b) {
      var cs := Decoded(b);
    }
    if IsText(b) {
      var cs: seq<int> :| (forall i :: 0 <= i < |cs| ==> Scalar(cs[i])) && b == Text(cs);
      TextValid(cs);
    }
  }

  lemma {:induction false} TextValid(cs: seq<int>)
    requires forall i :: 0 <= i < |cs| ==> Scalar(cs[i])
    ensures ValidUtf8(Text(cs))
  {
    if cs != [] {
      TextValid(cs[1..]);
      OneValid(cs[0], Text(cs[1..]));
    }
  }

  /** Two, three and four bytes are the form of a scalar value exactly when they are well formed. */
  predicate Wf2(h: int, x: int) { 0xC2 <= h <= 0xDF && 0x80 <= x < 0xC0 }

  predicate Wf3(h: int, x: int, y: int) {
    && 0xE0 <= h <= 0xEF && 0x80 <= x < 0xC0 && 0x80 <= y < 0xC0
    && (h == 0xE0 ==> x >= 0xA0) && (h == 0xED ==> x < 0xA0)
  }

  predicate Wf4(h: int, x: int, y: int, z: int) {
    && 0xF0 <= h <= 0xF4 && 0x80 <= x < 0xC0 && 0x80 <= y < 0xC0 && 0x80 <= z < 0xC0
    && (h == 0xF0 ==> x >= 0x90) && (h == 0xF4 ==> x < 0x90)
  }

  lemma Two(h: Byte, x: Byte)
    requires Wf2(h, x)
    ensures Scalar(h as int * 64 + x - 0xC0 * 64 - 0x80) && Utf8(h as int * 64 + x - 0xC0 * 64 - 0x80) == [h, x]
  {
  }

  lemma Three(h: Byte, x: Byte, y: Byte)
    requires Wf3(h, x, y)
    ensures var c := (h as int - 0xE0) * 4096 + (x as int - 0x80) * 64 + (y - 0x80);
      Scalar(c) && Utf8(c) == [h, x, y]
  {
    var c := (h as int - 0xE0) * 4096 + (x as int - 0x80) * 64 + (y - 0x80);
    assert c / 64 == (h as int - 0xE0) * 64 + (x - 0x80);
  }

  lemma Four(h: Byte, x: Byte, y: Byte, z: Byte)
    requires Wf4(h, x, y, z)
    ensures var c := (h as int - 0xF0) * 262144 + (x as int - 0x80) * 4096 + (y as int - 0x80) * 64 + (z - 0x80);
      Scalar(c) && Utf8(c) == [h, x, y, z]
  {
    var c := (h as int - 0xF0) * 262144 + (x as int - 0x80) * 4096 + (y as int - 0x80) * 64 + (z - 0x80);
    assert c / 64 == (h as int - 0xF0) * 4096 + (x as int - 0x80) * 64 + (y - 0x80);
    assert c / 4096 == (h as int - 0xF0) * 64 + (x - 0x80);
  }

  lemma FormIs(c: int)
    requires Scalar(c)
    ensures var b := Utf8(c);
      if c < 0x80 then |b| == 1 && b[0] < 0x80
      else if c < 0x800 then |b| == 2 && Wf2(b[0], b[1])
      else if c < 0x1_0000 then |b| == 3 && Wf3(b[0], b[1], b[2])
      else |b| == 4 && Wf4(b[0], b[1], b[2], b[3])
  {
  }

  lemma ValidStep(b: seq<Byte>)
    requires b != []
    ensures ValidUtf8(b) <==>
      if b[0] < 0x80 then ValidUtf8(b[1..])
      else if b[0] < 0xE0 then |b| >= 2 && Wf2(b[0], b[1]) && ValidUtf8(b[2..])
      else if b[0] < 0xF0 then |b| >= 3 && Wf3(b[0], b[1], b[2]) && ValidUtf8(b[3..])
      else |b| >= 4 && Wf4(b[0], b[1], b[2], b[3]) && ValidUtf8(b[4..])
  {
  }

  lemma OneValid(c: int, rest: seq<Byte>)
    requires Scalar(c)
    ensures ValidUtf8(Utf8(c) + rest) == ValidUtf8(rest)
  {
    var b := Utf8(c);
    FormIs(c);
    ValidStep(b + rest);
    hide ValidUtf8;
    hide Utf8;
    assert (b + rest)[|b|..] == rest;
    assert forall i :: 0 <= i < |b| ==> (b + rest)[i] == b[i];
  }

  lemma {:induction false} Decoded(b: seq<Byte>) returns (cs: seq<int>)
    requires ValidUtf8(b)
    ensures (forall i :: 0 <= i < |cs| ==> Scalar(cs[i])) && b == Text(cs)
    decreases |b|
  {
    cs := [];
    if b != [] {
      var c, n := First(b);
      var more := Decoded(b[n..]);
      cs := [c] + more;
      assert cs[1..] == more && b == b[..n] + b[n..];
    }
  }

  /** The scalar value at the front of valid text. */
  lemma First(b: seq<Byte>) returns (c: int, n: nat)
    requires ValidUtf8(b) && b != []
    ensures Scalar(c) && 0 < n <= |b| && b[..n] == Utf8(c) && ValidUtf8(b[n..])
  {
    ValidStep(b);
    hide ValidUtf8;
    if b[0] < 0x80 {
      c, n := b[0], 1;
      assert Utf8(c) == [c];
    } else if b[0] < 0xE0 {
      c, n := b[0] as int * 64 + b[1] - 0xC0 * 64 - 0x80, 2;
      Two(b[0], b[1]);
    } else if b[0] < 0xF0 {
      c, n := (b[0] as int - 0xE0) * 4096 + (b[1] as int - 0x80) * 64 + (b[2] - 0x80), 3;
      Three(b[0], b[1], b[2]);
    } else {
      c := (b[0] as int - 0xF0) * 262144 + (b[1] as int - 0x80) * 4096 + (b[2] as int - 0x80) * 64 + (b[3] - 0x80);
      n := 4;
      Four(b[0], b[1], b[2], b[3]);
    }
    hide Utf8;
    hide Scalar;
  }

  // ---- numbers ----

  /** The bytes of a number are its digits to base 256, the least first. */
  lemma {:induction false} ByteIs(x: nat, n: nat, i: nat)
    requires i < n
    ensures Le(x, n)[i] == x / Pow256(i) % 0x100
  {
    if i > 0 {
      ByteIs(x / 0x100, n - 1, i - 1);
      Twice(x, Pow256(i - 1));
    }
  }

  lemma Twice(x: nat, p: nat)
    requires p > 0
    ensures x / 0x100 / p == x / (0x100 * p)
  {
    var q, r := x / 0x100 / p, x / 0x100 % p;
    assert x / 0x100 == q * p + r;
    assert x == (q * p + r) * 0x100 + x % 0x100;
    var low := r * 0x100 + x % 0x100;
    assert x == q * (0x100 * p) + low && low < 0x100 * p;
    QuotientIs(x, 0x100 * p, q, low);
  }

  lemma QuotientIs(x: nat, d: nat, q: nat, r: nat)
    requires x == q * d + r && r < d
    ensures x / d == q
  {
    Remainder(x, d, q, r);
    assert x == x / d * d + r;
    Cancel(x / d, q, d);
  }

  lemma Cancel(a: int, b: int, d: nat)
    requires a * d == b * d && d > 0
    ensures a == b
  {
    assert (a - b) * d == 0;
    if a > b {
      Times(a - b, d);
    } else if a < b {
      Times(b - a, d);
    }
  }

  /** The null bitmap in arithmetic: column `i` has bit `i % 8`, counted from the low end, of byte `i / 8`. */
  lemma NullBits(vs: seq<Field>, i: nat)
    requires i < |vs|
    ensures vs[i].Null? <==> Bitmap(vs, |vs|)[i / 8] / Pow2(i % 8) % 2 == 1
  {
    BitmapBits(vs, |vs|, i);
    BitIs(Bitmap(vs, |vs|)[i / 8], i % 8);
    hide Bitmap;
    hide BitOf;
  }

  lemma {:induction false} BitIs(x: nat, k: nat)
    ensures BitOf(x, k) <==> x / Pow2(k) % 2 == 1
  {
    if k > 0 {
      BitIs(x / 2, k - 1);
      Halved(x, Pow2(k - 1));
    }
  }

  lemma Halved(x: nat, p: nat)
    requires p > 0
    ensures x / 2 / p == x / (2 * p)
  {
    var q, r := x / 2 / p, x / 2 % p;
    assert x / 2 == q * p + r;
    assert x == (q * p + r) * 2 + x % 2;
    var low := r * 2 + x % 2;
    assert x == q * (2 * p) + low && low < 2 * p;
    QuotientIs(x, 2 * p, q, low);
  }

  /** The two's complement of a stored integer, as a non-negative number. */
  function Twos(x: int, bits: nat): nat
    requires bits == 32 || bits == 64
    requires if bits == 32 then -0x8000_0000 <= x < 0x8000_0000
             else -0x8000_0000_0000_0000 <= x < 0x8000_0000_0000_0000
  {
    if x >= 0 then x else if bits == 32 then x + 0x1_0000_0000 else x + 0x1_0000_0000_0000_0000
  }

  /** What each kind of value is stored as. */
  lemma FieldsAre(v: Field, i: nat)
    ensures v.Int? && i < 4 ==> |EncodeField(v)| == 4 && EncodeField(v)[i] == Twos(v.int32, 32) / Pow256(i) % 0x100
    ensures v.Date? && i < 4 ==> |EncodeField(v)| == 4 && EncodeField(v)[i] == Twos(v.days, 32) / Pow256(i) % 0x100
    ensures v.Timestamp? && i < 8 ==>
      |EncodeField(v)| == 8 && EncodeField(v)[i] == Twos(v.micros, 64) / Pow256(i) % 0x100
    ensures v.Time? && i < 8 ==> |EncodeField(v)| == 8 && EncodeField(v)[i] == Twos(v.micros, 64) / Pow256(i) % 0x100
    ensures v.Double? && i < 8 ==> |EncodeField(v)| == 8 && EncodeField(v)[i] == v.bits / Pow256(i) % 0x100
    ensures v.Varchar? && i < 4 ==>
      |EncodeField(v)| == 4 + |v.text| && EncodeField(v)[4..] == v.text &&
      EncodeField(v)[i] == |v.text| % 0x1_0000_0000 / Pow256(i) % 0x100
    ensures v.Interval? ==>
      EncodeField(v) == EncodeField(Int(v.ivMonths)) + EncodeField(Date(v.ivDays)) + EncodeField(Time(v.ivMicros))
    ensures v == Bool(true) ==> EncodeField(v) == [1]
    ensures v == Bool(false) ==> EncodeField(v) == [0]
    ensures v == Null ==> EncodeField(v) == []
  {
    match v {
      case Int(x) => if i < 4 { ByteIs(Twos(x, 32), 4, i); }
      case Date(x) => if i < 4 { ByteIs(Twos(x, 32), 4, i); }
      case Timestamp(x) => if i < 8 { ByteIs(Twos(x, 64), 8, i); }
      case Time(x) => if i < 8 { ByteIs(Twos(x, 64), 8, i); }
      case Double(bits) => if i < 8 { ByteIs(bits, 8, i); }
      case Varchar(t) => if i < 4 { ByteIs(|t| % 0x1_0000_0000, 4, i); }
      case _ =>
    }
    hide Le;
  }
}
