/** The bit-level meaning of a geohash, stated as functions.

    A hash of `n` characters stands for a stream of `4 * n` bits. Bit `i` of the stream
    halves the current cell along longitude when `i` is even and along latitude when `i` is
    odd, so the alternation runs across character boundaries. A `true` bit keeps the upper
    half (the midpoint becomes the minimum), a `false` bit the lower half. The encoder and
    the bounding-box decoder in module `Geohash` are proved against these functions.

    `PointBox`, `CharValue`, `EncodedChars` and `NibbleBox` restate `BoxOf(PointBits ..)`,
    `BitsValue` of a slice, `HashOfBits(PointBits ..)` and `BoxOf(bits + NibbleBits ..)`
    one step at a time, the form the loop invariants of `Encode` and `DecodeBbox` take;
    `PointBoxIsBoxOf`, `CharValueIsBitsValue`, `EncodedCharsIsHash` and
    `NibbleBoxIsBoxOf` prove each equal to its whole-stream form. */
module Bitstream {
  import opened GeohashTypes
  import opened Alphabet

  /** The whole longitude/latitude range; the cell of the empty hash. */
  const World: Rect := Rect(Coordinate(-180.0, -90.0), Coordinate(180.0, 90.0))

  predicate InWorld(c: Coordinate) {
    -180.0 <= c.x <= 180.0 && -90.0 <= c.y <= 90.0
  }

  /** `c` lies in the closed rectangle `r`. */
  predicate Contains(r: Rect, c: Coordinate) {
    r.min.x <= c.x <= r.max.x && r.min.y <= c.y <= r.max.y
  }

  /** `c` lies strictly above the minimum and at most at the maximum on both axes: such
      a point picks exactly this cell's bits when encoded (the encoder compares with `>`). */
  predicate Owns(r: Rect, c: Coordinate) {
    r.min.x < c.x <= r.max.x && r.min.y < c.y <= r.max.y
  }

  predicate Within(inner: Rect, outer: Rect) {
    outer.min.x <= inner.min.x && inner.max.x <= outer.max.x &&
    outer.min.y <= inner.min.y && inner.max.y <= outer.max.y
  }

  /** Both sides of `r` have positive length. */
  predicate Proper(r: Rect) {
    r.min.x < r.max.x && r.min.y < r.max.y
  }

  function Centre(r: Rect): Coordinate {
    Coordinate((r.min.x + r.max.x) / 2.0, (r.min.y + r.max.y) / 2.0)
  }

  /** Bit `i` of the stream refines longitude exactly when `i` is even. */
  predicate IsLonBit(i: nat) {
    i % 2 == 0
  }

  /** The cell left after bit `i` (value `bit`) splits cell `b` at its midpoint. */
  function Refine(b: Rect, i: nat, bit: bool): Rect {
    if IsLonBit(i) then
      var mid := (b.max.x + b.min.x) / 2.0;
      if bit then Rect(Coordinate(mid, b.min.y), b.max)
      else Rect(b.min, Coordinate(mid, b.max.y))
    else
      var mid := (b.max.y + b.min.y) / 2.0;
      if bit then Rect(Coordinate(b.min.x, mid), b.max)
      else Rect(b.min, Coordinate(b.max.x, mid))
  }

  /** The cell a bit stream denotes: `World` refined by every bit in turn. */
  function BoxOf(bits: seq<bool>): Rect
    decreases |bits|
  {
    if bits == [] then World
    else Refine(BoxOf(bits[..|bits| - 1]), |bits| - 1, bits[|bits| - 1])
  }

  /** The bit the encoder emits at stream position `i` for point `c` while its cell is `b`:
      whether `c` lies strictly above the midpoint on that position's axis. */
  predicate PointBit(c: Coordinate, b: Rect, i: nat) {
    if IsLonBit(i) then c.x > (b.max.x + b.min.x) / 2.0
    else c.y > (b.max.y + b.min.y) / 2.0
  }

  /** The first `n` bits the encoder emits for `c`. */
  function PointBits(c: Coordinate, n: nat): (bits: seq<bool>)
    ensures |bits| == n
  {
    if n == 0 then []
    else
      var pre := PointBits(c, n - 1);
      pre + [PointBit(c, BoxOf(pre), n - 1)]
  }

  function Pow2(k: nat): (p: nat)
    ensures p >= 1
  {
    if k == 0 then 1 else 2 * Pow2(k - 1)
  }

  /** The number the bits spell, most significant first. */
  function BitsValue(bits: seq<bool>): (v: nat)
    ensures v < Pow2(|bits|)
    decreases |bits|
  {
    if bits == [] then 0
    else 2 * BitsValue(bits[..|bits| - 1]) + (if bits[|bits| - 1] then 1 else 0)
  }

  /** Bit `k` (counting from the least significant) of `v`: `(v >> k) & 1 == 1`. */
  predicate BitAt(v: nat, k: nat) {
    (v / Pow2(k)) % 2 == 1
  }

  /** The four low bits of `v`, most significant first. */
  function NibbleBits(v: nat): (bits: seq<bool>)
    ensures |bits| == 4
  {
    seq(4, k requires 0 <= k < 4 => BitAt(v, 3 - k))
  }

  /** The hash spelled by a stream of whole characters: each group of four bits becomes
      the alphabet character at that group's value (a partial group is never formed; the
      encoder emits whole characters only). */
  function HashOfBits(bits: seq<bool>): (h: string)
    ensures 4 * |h| <= |bits| < 4 * |h| + 4
    ensures forall k :: 0 <= k < |h| ==> h[k] in Codes
    decreases |bits|
  {
    if |bits| < 4 then []
    else
      assert Pow2(4) == 16;
      HashOfBits(bits[..|bits| - 4]) + [Codes[BitsValue(bits[|bits| - 4..])]]
  }

  /** The value of every character of `s`, or the error for the first one that is not in
      the alphabet (`DigitsMeaning` states both outright). */
  function Digits(s: string): (r: Result<seq<nat>>)
    ensures r.Success? ==> |r.value| == |s|
    decreases |s|
  {
    if s == [] then Success([])
    else
      var ds :- Digits(s[..|s| - 1]);
      var v :- HashValueOfChar(s[|s| - 1]);
      Success(ds + [v])
  }

  /** Every character of `s` is in the alphabet. */
  predicate AllCodes(s: string) {
    forall k :: 0 <= k < |s| ==> s[k] in Codes
  }

  /** `k` is the first position of `s` holding a character outside the alphabet. */
  predicate FirstInvalid(s: string, k: int) {
    0 <= k < |s| && s[k] !in Codes && AllCodes(s[..k])
  }

  /** The values are read exactly when every character is in the alphabet, each value is
      its character's position in `Codes`, and otherwise the error names the first
      character outside the alphabet. */
  lemma DigitsMeaning(s: string)
    ensures Digits(s).Success? <==> AllCodes(s)
    ensures Digits(s).Success? ==>
      forall k :: 0 <= k < |s| ==> Digits(s).value[k] < |Codes| && Codes[Digits(s).value[k]] == s[k]
    ensures Digits(s).Failure? ==>
      exists k :: FirstInvalid(s, k) && Digits(s).error == InvalidHashCharacter(s[k])
  {
    DigitsSuccess(s);
    if Digits(s).Success? {
      DigitsValues(s);
    } else {
      DigitsFirstError(s);
    }
  }

  /** A string is valid exactly when it extends a valid string by a valid character. */
  lemma AllCodesSnoc(pre: string, ch: char)
    ensures AllCodes(pre + [ch]) <==> AllCodes(pre) && ch in Codes
  {
    var s := pre + [ch];
    assert forall k :: 0 <= k < |pre| ==> s[k] == pre[k];
    assert s[|pre|] == ch;
  }

  lemma {:induction false} DigitsSuccess(s: string)
    ensures Digits(s).Success? <==> AllCodes(s)
    decreases |s|
  {
    if s != [] {
      var pre, ch := s[..|s| - 1], s[|s| - 1];
      LastSplit(s);
      DigitsSnoc(pre, ch);
      DigitsSuccess(pre);
      AllCodesSnoc(pre, ch);
    }
  }

  lemma {:induction false} DigitsValues(s: string)
    requires Digits(s).Success?
    ensures forall k :: 0 <= k < |s| ==> Digits(s).value[k] < |Codes| && Codes[Digits(s).value[k]] == s[k]
    decreases |s|
  {
    if s != [] {
      var pre, ch := s[..|s| - 1], s[|s| - 1];
      LastSplit(s);
      DigitsSnoc(pre, ch);
      DigitsValues(pre);
      var ds, pds := Digits(s).value, Digits(pre).value;
      forall k | 0 <= k < |s|
        ensures ds[k] < |Codes| && Codes[ds[k]] == s[k]
      {
        if k < |pre| {
          assert ds[k] == pds[k] && s[k] == pre[k];
        }
      }
    }
  }

  lemma {:induction false} DigitsFirstError(s: string)
    requires Digits(s).Failure?
    ensures exists k :: FirstInvalid(s, k) && Digits(s).error == InvalidHashCharacter(s[k])
    decreases |s|
  {
    var pre, ch := s[..|s| - 1], s[|s| - 1];
    LastSplit(s);
    DigitsSnoc(pre, ch);
    if Digits(pre).Failure? {
      DigitsFirstError(pre);
      var k :| FirstInvalid(pre, k) && Digits(pre).error == InvalidHashCharacter(pre[k]);
      assert pre[..k] == s[..k] && pre[k] == s[k];
      assert FirstInvalid(s, k);
    } else {
      DigitsSuccess(pre);
      assert FirstInvalid(s, |s| - 1);
    }
  }


  /** The bit stream of a sequence of character values, four bits per value. */
  function BitsOfDigits(ds: seq<nat>): (bits: seq<bool>)
    ensures |bits| == 4 * |ds|
    decreases |ds|
  {
    if ds == [] then []
    else BitsOfDigits(ds[..|ds| - 1]) + NibbleBits(ds[|ds| - 1])
  }

  /** What encoding `c` to `len` characters yields: an error carrying `c` when it lies
      outside the world, otherwise the characters of its first `4 * len` bits. */
  function EncodeSpec(c: Coordinate, len: nat): Result<string> {
    if c.x < -180.0 || c.x > 180.0 || c.y < -90.0 || c.y > 90.0 then
      Failure(InvalidCoordinateRange(c))
    else
      Success(HashOfBits(PointBits(c, 4 * len)))
  }

  /** What decoding `s` to its cell yields: the error for its first character outside
      the alphabet, otherwise the cell of its bits. */
  function DecodeBboxSpec(s: string): Result<Rect> {
    var ds :- Digits(s);
    Success(BoxOf(BitsOfDigits(ds)))
  }

  // ---------------------------------------------------------------------------------
  // Unfolding a stream function at its last element

  lemma BoxOfSnoc(pre: seq<bool>, b: bool)
    ensures BoxOf(pre + [b]) == Refine(BoxOf(pre), |pre|, b)
  {
    assert (pre + [b])[..|pre|] == pre;
  }

  lemma BoxOfSnocAt(pre: seq<bool>, b: bool, i: nat)
    requires i == |pre|
    ensures BoxOf(pre + [b]) == Refine(BoxOf(pre), i, b)
  {
    BoxOfSnoc(pre, b);
  }

  lemma BitsValueSnoc(pre: seq<bool>, b: bool)
    ensures BitsValue(pre + [b]) == 2 * BitsValue(pre) + (if b then 1 else 0)
  {
    assert (pre + [b])[..|pre|] == pre;
  }

  lemma BitsOfDigitsSnoc(ds: seq<nat>, v: nat)
    ensures BitsOfDigits(ds + [v]) == BitsOfDigits(ds) + NibbleBits(v)
  {
    assert (ds + [v])[..|ds|] == ds;
  }

  lemma DigitsSnoc(s: string, ch: char)
    ensures Digits(s + [ch]).Success? <==> Digits(s).Success? && ch in Codes
    ensures Digits(s + [ch]).Success? ==>
      Digits(s + [ch]).value == Digits(s).value + [HashValueOfChar(ch).value]
    ensures Digits(s).Failure? ==> Digits(s + [ch]) == Digits(s)
    ensures Digits(s).Success? && ch !in Codes ==> Digits(s + [ch]) == Failure(InvalidHashCharacter(ch))
  {
    assert (s + [ch])[..|s|] == s;
  }

  lemma HashOfBitsSnoc(pre: seq<bool>, q: seq<bool>)
    requires |q| == 4
    ensures HashOfBits(pre + q) == HashOfBits(pre) + [Codes[BitsValue(q)]]
  {
    var bits := pre + q;
    assert bits[..|bits| - 4] == pre;
    assert bits[|bits| - 4..] == q;
  }

  // ---------------------------------------------------------------------------------
  // Cells: every cell is proper, inside the world, and inside the cells of its prefixes

  /** One refinement step keeps a proper cell proper and stays inside it. */
  lemma RefineWithin(b: Rect, i: nat, bit: bool)
    requires Proper(b)
    ensures Proper(Refine(b, i, bit)) && Within(Refine(b, i, bit), b)
  {
  }

  /** Every cell has positive width and height and lies inside `World`. */
  lemma {:induction false} BoxProper(bits: seq<bool>)
    ensures Proper(BoxOf(bits)) && Within(BoxOf(bits), World)
    decreases |bits|
  {
    if bits != [] {
      var pre := bits[..|bits| - 1];
      BoxProper(pre);
      RefineWithin(BoxOf(pre), |pre|, bits[|bits| - 1]);
    }
  }

  /** The cell of a stream lies inside the cell of each of its prefixes. */
  lemma {:induction false} BoxNested(bits: seq<bool>, m: nat)
    requires m <= |bits|
    ensures Within(BoxOf(bits), BoxOf(bits[..m]))
    decreases |bits|
  {
    if m < |bits| {
      var pre := bits[..|bits| - 1];
      BoxNested(pre, m);
      assert pre[..m] == bits[..m];
      BoxProper(pre);
      RefineWithin(BoxOf(pre), |pre|, bits[|bits| - 1]);
    } else {
      assert bits[..m] == bits;
    }
  }

  // ---------------------------------------------------------------------------------
  // The encoder's bits

  /** Encoding to more bits only extends the shorter encoding. */
  lemma {:induction false} PointBitsPrefix(c: Coordinate, m: nat, n: nat)
    requires m <= n
    ensures PointBits(c, n)[..m] == PointBits(c, m)
    decreases n
  {
    if m < n {
      PointBitsPrefix(c, m, n - 1);
      assert PointBits(c, n)[..n - 1] == PointBits(c, n - 1);
    }
  }

  /** A point of the world stays inside its cell at every step of the binary search. */
  lemma {:induction false} PointInCell(c: Coordinate, n: nat)
    requires InWorld(c)
    ensures Contains(BoxOf(PointBits(c, n)), c)
    decreases n
  {
    if n > 0 {
      var pre := PointBits(c, n - 1);
      PointInCell(c, n - 1);
      BoxOfSnoc(pre, PointBit(c, BoxOf(pre), n - 1));
    }
  }

  /** Every point a cell owns encodes to exactly that cell's bits. */
  lemma {:induction false} OwnedPointEncodes(bits: seq<bool>, p: Coordinate)
    requires Owns(BoxOf(bits), p)
    ensures PointBits(p, |bits|) == bits
    decreases |bits|
  {
    if bits != [] {
      var n := |bits|;
      var pre := bits[..n - 1];
      var b := bits[n - 1];
      LastSplit(bits);
      BoxProper(pre);
      RefineWithin(BoxOf(pre), n - 1, b);
      OwnedPointEncodes(pre, p);
      BoxOfSnoc(pre, b);
    }
  }

  /** The encoder's cell after `n` bits, computed step by step without the bit stream. */
  function PointBox(c: Coordinate, n: nat): Rect {
    if n == 0 then World
    else Refine(PointBox(c, n - 1), n - 1, PointBit(c, PointBox(c, n - 1), n - 1))
  }

  /** The value of the encoder bits at stream positions `start` up to `end`, most
      significant first, computed step by step without the bit stream. */
  function CharValue(c: Coordinate, start: nat, end: nat): nat
    requires start <= end
    decreases end - start
  {
    if end == start then 0
    else
      2 * CharValue(c, start, end - 1) +
      (if PointBit(c, PointBox(c, end - 1), end - 1) then 1 else 0)
  }

  /** The step-by-step cell is the cell of the encoder's bits. */
  lemma {:induction false} PointBoxIsBoxOf(c: Coordinate, n: nat)
    ensures PointBox(c, n) == BoxOf(PointBits(c, n))
    decreases n
  {
    if n > 0 {
      var pre := PointBits(c, n - 1);
      PointBoxIsBoxOf(c, n - 1);
      BoxOfSnoc(pre, PointBit(c, BoxOf(pre), n - 1));
    }
  }

  /** The step-by-step value is the value of the encoder's bits from `start` on. */
  lemma {:induction false} CharValueIsBitsValue(c: Coordinate, start: nat, end: nat)
    requires start <= end
    ensures CharValue(c, start, end) == BitsValue(PointBits(c, end)[start..])
    decreases end - start
  {
    var pre := PointBits(c, end);
    if end == start {
      assert pre[start..] == [];
    } else {
      var p := end - 1;
      var bit := PointBit(c, BoxOf(PointBits(c, p)), p);
      CharValueIsBitsValue(c, start, p);
      PointBoxIsBoxOf(c, p);
      assert pre == PointBits(c, p) + [bit];
      assert pre[start..] == PointBits(c, p)[start..] + [bit];
      BitsValueSnoc(PointBits(c, p)[start..], bit);
    }
  }

  /** The step-by-step value of `end - start` bits is below `2^(end - start)`. */
  lemma {:induction false} CharValueBound(c: Coordinate, start: nat, end: nat)
    requires start <= end
    ensures CharValue(c, start, end) < Pow2(end - start)
    decreases end - start
  {
    if end > start {
      CharValueBound(c, start, end - 1);
    }
  }

  /** Four more encoder bits add one character: the code at their value, which is below 16. */
  lemma EncodeChar(c: Coordinate, k: nat)
    ensures CharValue(c, 4 * k, 4 * k + 4) < 16
    ensures HashOfBits(PointBits(c, 4 * k + 4)) ==
      HashOfBits(PointBits(c, 4 * k)) + [Codes[CharValue(c, 4 * k, 4 * k + 4)]]
  {
    EncodeCharAt(c, 4 * k, 4 * k + 4);
  }

  lemma EncodeCharAt(c: Coordinate, p: nat, e: nat)
    requires e == p + 4
    ensures CharValue(c, p, e) < 16
    ensures HashOfBits(PointBits(c, e)) == HashOfBits(PointBits(c, p)) + [Codes[CharValue(c, p, e)]]
  {
    var all := PointBits(c, e);
    CharValueBound(c, p, e);
    Pow2Four(e - p);
    PointBitsPrefix(c, p, e);
    TakeDrop(all, p);
    CharValueIsBitsValue(c, p, e);
    HashOfBitsSnoc(PointBits(c, p), all[p..]);
  }

  lemma Pow2Four(n: nat)
    requires n == 4
    ensures Pow2(n) == 16
  {
  }


  /** The first `k` characters of the encoding of `c`, built character by character. */
  function EncodedChars(c: Coordinate, k: nat): (h: string)
    ensures |h| == k
  {
    if k == 0 then []
    else
      var j := k - 1;
      assert CharValue(c, 4 * j, 4 * j + 4) < 16 by { EncodeChar(c, j); }
      EncodedChars(c, j) + [Codes[CharValue(c, 4 * j, 4 * j + 4)]]
  }

  /** Character by character, the encoder spells the hash of its bit stream. */
  lemma {:induction false} EncodedCharsIsHash(c: Coordinate, k: nat)
    ensures EncodedChars(c, k) == HashOfBits(PointBits(c, 4 * k))
    decreases k
  {
    if k > 0 {
      var j := k - 1;
      EncodedCharsIsHash(c, j);
      EncodeChar(c, j);
      assert 4 * j + 4 == 4 * k;
    }
  }

  // ---------------------------------------------------------------------------------
  // Characters and bits

  /** The value of four bits, written out. */
  lemma BitsValueOfFour(q: seq<bool>)
    requires |q| == 4
    ensures BitsValue(q) == 8 * (if q[0] then 1 else 0) + 4 * (if q[1] then 1 else 0)
                            + 2 * (if q[2] then 1 else 0) + (if q[3] then 1 else 0)
  {
    assert q[..3][..2] == q[..2] && q[..2][..1] == q[..1] && q[..1][..0] == [];
    assert BitsValue(q[..1]) == (if q[0] then 1 else 0);
    assert BitsValue(q[..2]) == 2 * BitsValue(q[..1]) + (if q[1] then 1 else 0);
    assert BitsValue(q[..3]) == 2 * BitsValue(q[..2]) + (if q[2] then 1 else 0);
  }

  /** Four bits spell a value whose four low bits are those bits. */
  lemma NibbleOfValue(q: seq<bool>)
    requires |q| == 4
    ensures NibbleBits(BitsValue(q)) == q
  {
    var v := BitsValue(q);
    BitsValueOfFour(q);
    assert BitAt(v, 3) == q[0] by { assert Pow2(3) == 8; }
    assert BitAt(v, 2) == q[1] by { assert Pow2(2) == 4; }
    assert BitAt(v, 1) == q[2] by { assert Pow2(1) == 2; }
    assert BitAt(v, 0) == q[3] by { assert Pow2(0) == 1; }
    var nibble := NibbleBits(v);
    assert nibble[0] == q[0] && nibble[1] == q[1] && nibble[2] == q[2] && nibble[3] == q[3];
  }

  /** The four low bits of a value below 16 spell that value. */
  lemma ValueOfNibble(v: nat)
    requires v < 16
    ensures BitsValue(NibbleBits(v)) == v
  {
    BitsValueOfFour(NibbleBits(v));
    assert Pow2(3) == 8 && Pow2(2) == 4 && Pow2(1) == 2 && Pow2(0) == 1;
  }

  /** Cell `b` at stream position `p` refined by the leading bits of the character value
      `v` up to stream position `end`, computed step by step without the bit stream. */
  function NibbleBox(b: Rect, p: nat, v: nat, end: nat): Rect
    requires p <= end <= p + 4
    decreases end - p
  {
    if end == p then b
    else Refine(NibbleBox(b, p, v, end - 1), end - 1, BitAt(v, 3 - (end - 1 - p)))
  }

  lemma NibbleBoxUnfold(b: Rect, p: nat, v: nat, end: nat)
    requires p < end <= p + 4
    ensures NibbleBox(b, p, v, end) == Refine(NibbleBox(b, p, v, end - 1), end - 1, NibbleBits(v)[end - 1 - p])
  {
    NibbleBitAt(v, end - 1 - p);
  }

  lemma NibbleBitAt(v: nat, k: nat)
    requires k < 4
    ensures NibbleBits(v)[k] == BitAt(v, 3 - k)
  {
  }

  /** The step-by-step cell is the cell of the stream extended by those bits. */
  lemma {:induction false} NibbleBoxIsBoxOf(bits: seq<bool>, v: nat, end: nat)
    requires |bits| <= end <= |bits| + 4
    ensures NibbleBox(BoxOf(bits), |bits|, v, end) == BoxOf(bits + NibbleBits(v)[..end - |bits|])
    decreases end - |bits|
  {
    if end == |bits| {
      assert bits + NibbleBits(v)[..0] == bits;
    } else {
      NibbleBoxIsBoxOf(bits, v, end - 1);
      NibbleBoxStep(bits, v, end);
    }
  }

  /** One more bit of the character value extends both sides of `NibbleBoxIsBoxOf`. */
  lemma NibbleBoxStep(bits: seq<bool>, v: nat, end: nat)
    requires |bits| < end <= |bits| + 4
    requires NibbleBox(BoxOf(bits), |bits|, v, end - 1) == BoxOf(bits + NibbleBits(v)[..end - 1 - |bits|])
    ensures NibbleBox(BoxOf(bits), |bits|, v, end) == BoxOf(bits + NibbleBits(v)[..end - |bits|])
  {
    NibbleBoxUnfold(BoxOf(bits), |bits|, v, end);
    AppendTakeSnoc(bits, NibbleBits(v), end - 1 - |bits|, end - |bits|);
    BoxOfSnocAt(bits + NibbleBits(v)[..end - 1 - |bits|], NibbleBits(v)[end - 1 - |bits|], end - 1);
  }

  /** Reading back the hash of a whole-character stream gives that stream again. */
  lemma {:induction false} HashOfBitsDecodes(bits: seq<bool>, n: nat)
    requires |bits| == 4 * n
    ensures Digits(HashOfBits(bits)).Success?
    ensures BitsOfDigits(Digits(HashOfBits(bits)).value) == bits
    decreases n
  {
    if n > 0 {
      var pre := bits[..|bits| - 4];
      var q := bits[|bits| - 4..];
      assert bits == pre + q;
      HashOfBitsDecodes(pre, n - 1);
      HashOfBitsSnoc(pre, q);
      assert Pow2(4) == 16;
      var v := BitsValue(q);
      CodeRoundTrip(v);
      DigitsSnoc(HashOfBits(pre), Codes[v]);
      BitsOfDigitsSnoc(Digits(HashOfBits(pre)).value, v);
      NibbleOfValue(q);
    }
  }

  /** Rebuilding a valid hash from the bits of its characters gives the hash again. */
  lemma {:induction false} DigitsRebuildHash(s: string)
    requires Digits(s).Success?
    ensures HashOfBits(BitsOfDigits(Digits(s).value)) == s
    decreases |s|
  {
    if s != [] {
      var pre := s[..|s| - 1];
      var ch := s[|s| - 1];
      LastSplit(s);
      DigitsSnoc(pre, ch);
      var ds := Digits(pre).value;
      var v := HashValueOfChar(ch).value;
      DigitsRebuildHash(pre);
      BitsOfDigitsSnoc(ds, v);
      HashOfBitsSnoc(BitsOfDigits(ds), NibbleBits(v));
      ValueOfNibble(v);
    }
  }

  // ---------------------------------------------------------------------------------
  // Round trips between the two specifications

  /** Decoding the hash of a whole-character stream gives that stream's cell. */
  lemma DecodeOfHash(bits: seq<bool>, n: nat)
    requires |bits| == 4 * n
    ensures DecodeBboxSpec(HashOfBits(bits)) == Success(BoxOf(bits))
  {
    HashOfBitsDecodes(bits, n);
  }

  /** Encoding the centre of a valid hash's cell, at the hash's length, gives the hash back. */
  lemma CentreEncodesToHash(s: string)
    requires DecodeBboxSpec(s).Success?
    ensures InWorld(Centre(DecodeBboxSpec(s).value))
    ensures EncodeSpec(Centre(DecodeBboxSpec(s).value), |s|) == Success(s)
  {
    var bits := BitsOfDigits(Digits(s).value);
    var box := BoxOf(bits);
    BoxProper(bits);
    OwnedPointEncodes(bits, Centre(box));
    DigitsRebuildHash(s);
  }

  // ---------------------------------------------------------------------------------
  // Cells as grid positions

  /** The side of a cell after `k` halvings of a side of length `total`. */
  function Unit(total: real, k: nat): (u: real)
    requires total > 0.0
    ensures u > 0.0
  {
    if k == 0 then total else Unit(total, k - 1) / 2.0
  }

  /** How many of the first `n` bits refine longitude, and how many latitude. */
  function LonCount(n: nat): nat { (n + 1) / 2 }
  function LatCount(n: nat): nat { n / 2 }

  /** The column of a stream's cell: its longitude bits read as a number. */
  function LonIndex(bits: seq<bool>): nat
    decreases |bits|
  {
    if bits == [] then 0
    else if IsLonBit(|bits| - 1) then
      2 * LonIndex(bits[..|bits| - 1]) + (if bits[|bits| - 1] then 1 else 0)
    else LonIndex(bits[..|bits| - 1])
  }

  /** The row of a stream's cell: its latitude bits read as a number. */
  function LatIndex(bits: seq<bool>): nat
    decreases |bits|
  {
    if bits == [] then 0
    else if !IsLonBit(|bits| - 1) then
      2 * LatIndex(bits[..|bits| - 1]) + (if bits[|bits| - 1] then 1 else 0)
    else LatIndex(bits[..|bits| - 1])
  }

  /** How far the lower edge of cell `k` lies from the start of an axis of cells of side
      `u`. Kept as a function so that proofs about it stay linear. */
  function Offset(k: int, u: real): real {
    k as real * u
  }

  lemma OffsetAdd(a: int, b: int, u: real)
    ensures Offset(a + b, u) == Offset(a, u) + Offset(b, u)
  {
  }

  lemma OffsetSmall(u: real)
    ensures Offset(0, u) == 0.0 && Offset(1, u) == u && Offset(-1, u) == -u
  {
  }

  /** The next cell starts one side further on. */
  lemma OffsetNext(k: int, u: real)
    ensures Offset(k + 1, u) == Offset(k, u) + u
  {
    OffsetAdd(k, 1, u);
    OffsetSmall(u);
  }

  /** Halving the side and doubling the index names the same edge; the odd index in
      between names the midpoint. */
  lemma OffsetHalf(k: int, u: real)
    ensures Offset(2 * k, u / 2.0) == Offset(k, u)
    ensures Offset(2 * k + 1, u / 2.0) == Offset(k, u) + u / 2.0
    ensures Offset(2 * k + 2, u / 2.0) == Offset(k + 1, u)
  {
    OffsetNext(2 * k, u / 2.0);
    OffsetNext(2 * k + 1, u / 2.0);
    OffsetNext(k, u);
  }

  /** Scaling by a positive side preserves strict order. */
  lemma ScaleStrict(a: real, b: real, u: real)
    requires u > 0.0 && a < b
    ensures a * u < b * u
  {
    assert (b - a) * u > 0.0;
  }

  /** Cell edges come in the order of their indices. */
  lemma OffsetOrder(a: int, b: int, u: real)
    requires u > 0.0
    ensures Offset(a, u) <= Offset(b, u) <==> a <= b
  {
    if a < b {
      ScaleStrict(a as real, b as real, u);
    } else if b < a {
      ScaleStrict(b as real, a as real, u);
    }
  }

  /** The cell in column `i` and row `j` of the grid that `n` bits divide the world into. */
  function GridCell(i: int, j: int, n: nat): Rect {
    var u := Unit(360.0, LonCount(n));
    var v := Unit(180.0, LatCount(n));
    Rect(Coordinate(-180.0 + Offset(i, u), -90.0 + Offset(j, v)),
         Coordinate(-180.0 + Offset(i + 1, u), -90.0 + Offset(j + 1, v)))
  }

  /** A bit at position `p` picks one half of cell `(i, j)` on that position's axis:
      the cell `(i', j')` one position further. */
  lemma GridRefine(i: int, j: int, p: nat, b: bool, i': int, j': int, n: nat)
    requires n == p + 1
    requires IsLonBit(p) ==> i' == 2 * i + (if b then 1 else 0) && j' == j
    requires !IsLonBit(p) ==> i' == i && j' == 2 * j + (if b then 1 else 0)
    ensures Refine(GridCell(i, j, p), p, b) == GridCell(i', j', n)
  {
    if IsLonBit(p) {
      GridRefineLon(i, j, p, b);
    } else {
      GridRefineLat(i, j, p, b);
    }
  }

  /** A longitude bit halves the column width and picks the left or right half. */
  lemma GridRefineLon(i: int, j: int, p: nat, b: bool)
    requires IsLonBit(p)
    ensures Refine(GridCell(i, j, p), p, b) == GridCell(2 * i + (if b then 1 else 0), j, p + 1)
  {
    assert LonCount(p + 1) == LonCount(p) + 1 && LatCount(p + 1) == LatCount(p);
    var u := Unit(360.0, LonCount(p));
    OffsetHalf(i, u);
    OffsetNext(i, u);
  }

  /** A latitude bit halves the row height and picks the lower or upper half. */
  lemma GridRefineLat(i: int, j: int, p: nat, b: bool)
    requires !IsLonBit(p)
    ensures Refine(GridCell(i, j, p), p, b) == GridCell(i, 2 * j + (if b then 1 else 0), p + 1)
  {
    assert LatCount(p + 1) == LatCount(p) + 1 && LonCount(p + 1) == LonCount(p);
    var v := Unit(180.0, LatCount(p));
    OffsetHalf(j, v);
    OffsetNext(j, v);
  }

  /** The column and row of a stream lie inside the grid its length divides the world into. */
  lemma {:induction false} IndexBounds(bits: seq<bool>)
    ensures LonIndex(bits) < Pow2(LonCount(|bits|))
    ensures LatIndex(bits) < Pow2(LatCount(|bits|))
    decreases |bits|
  {
    if bits != [] {
      var p := |bits| - 1;
      IndexBounds(bits[..p]);
      if IsLonBit(p) {
        assert LonCount(p + 1) == LonCount(p) + 1 && LatCount(p + 1) == LatCount(p);
        assert Pow2(LonCount(p + 1)) == 2 * Pow2(LonCount(p));
      } else {
        assert LatCount(p + 1) == LatCount(p) + 1 && LonCount(p + 1) == LonCount(p);
        assert Pow2(LatCount(p + 1)) == 2 * Pow2(LatCount(p));
      }
    }
  }

  /** One more bit refines the grid cell of the shorter stream into that of the longer. */
  lemma GridRefineStep(bits: seq<bool>)
    requires bits != []
    ensures Refine(GridCell(LonIndex(bits[..|bits| - 1]), LatIndex(bits[..|bits| - 1]), |bits| - 1),
                   |bits| - 1, bits[|bits| - 1])
         == GridCell(LonIndex(bits), LatIndex(bits), |bits|)
  {
    var p, b := |bits| - 1, bits[|bits| - 1];
    var i, j := LonIndex(bits[..p]), LatIndex(bits[..p]);
    var i', j' := LonIndex(bits), LatIndex(bits);
    assert IsLonBit(p) ==> i' == 2 * i + (if b then 1 else 0) && j' == j;
    assert !IsLonBit(p) ==> i' == i && j' == 2 * j + (if b then 1 else 0);
    GridRefine(i, j, p, b, i', j', |bits|);
  }

  /** The cell of a bit stream is the grid cell at the column and row its bits spell. */
  lemma {:induction false} BoxIsGridCell(bits: seq<bool>)
    ensures BoxOf(bits) == GridCell(LonIndex(bits), LatIndex(bits), |bits|)
    decreases |bits|
  {
    if bits != [] {
      BoxIsGridCell(bits[..|bits| - 1]);
      GridRefineStep(bits);
    }
  }

  /** `2^k` cells of side `Unit(total, k)` make up the whole side `total`. */
  lemma {:induction false} UnitFillsSide(total: real, k: nat)
    requires total > 0.0
    ensures Offset(Pow2(k), Unit(total, k)) == total
    decreases k
  {
    if k > 0 {
      UnitFillsSide(total, k - 1);
      OffsetHalf(Pow2(k - 1), Unit(total, k - 1));
    }
  }

  /** `Unit(total, k)` is `total` divided by `2^k`. */
  lemma UnitIsQuotient(total: real, k: nat)
    requires total > 0.0
    ensures Unit(total, k) == total / Pow2(k) as real
  {
    UnitFillsSide(total, k);
    var u, p := Unit(total, k), Pow2(k) as real;
    assert p * u == total;
    assert u == (p * u) / p;
  }

  /** Halving more often gives a strictly smaller side. */
  lemma {:induction false} UnitShrinks(total: real, k: nat, m: nat)
    requires total > 0.0 && k < m
    ensures Unit(total, m) < Unit(total, k)
    decreases m
  {
    if k < m - 1 {
      UnitShrinks(total, k, m - 1);
    }
  }

  // ---------------------------------------------------------------------------------
  // Grid arithmetic on one axis

  /** The centre `x` of cell `k` of an axis of `p` cells of side `u` lies in the axis's
      range exactly when `k` is one of its cells. */
  lemma CentreInRange(lo: real, u: real, p: int, k: int, x: real, span: real)
    requires u > 0.0 && Offset(p, u) == span
    requires x == lo + Offset(k, u) + u / 2.0
    ensures lo <= x <= lo + span <==> 0 <= k < p
  {
    OffsetSmall(u);
    OffsetNext(k, u);
    OffsetOrder(0, k, u);
    OffsetOrder(k, -1, u);
    OffsetOrder(k + 1, p, u);
    OffsetOrder(p, k, u);
  }

  /** Cell `k`, from `a` to `b`, of an axis of `p` cells of side `u` lies in the axis's
      range exactly when `k` is one of its cells. */
  lemma CellInRange(lo: real, u: real, p: int, k: int, a: real, b: real, span: real)
    requires u > 0.0 && Offset(p, u) == span
    requires a == lo + Offset(k, u) && b == lo + Offset(k + 1, u)
    ensures lo <= a && b <= lo + span <==> 0 <= k < p
  {
    OffsetSmall(u);
    OffsetOrder(0, k, u);
    OffsetOrder(k + 1, p, u);
  }

  /** The only cell of an axis that contains the centre `x` of cell `k` is cell `k`. */
  lemma CentreOnlyInOwnCell(lo: real, u: real, k: int, k': int, x: real)
    requires u > 0.0
    requires x == lo + Offset(k, u) + u / 2.0
    requires lo + Offset(k', u) <= x <= lo + Offset(k' + 1, u)
    ensures k' == k
  {
    OffsetNext(k, u);
    OffsetNext(k', u);
    OffsetOrder(k + 1, k', u);
    OffsetOrder(k' + 1, k, u);
  }

  /** The centre of a grid cell, written out. */
  lemma GridCentre(i: int, j: int, n: nat)
    ensures Centre(GridCell(i, j, n)).x ==
      -180.0 + Offset(i, Unit(360.0, LonCount(n))) + Unit(360.0, LonCount(n)) / 2.0
    ensures Centre(GridCell(i, j, n)).y ==
      -90.0 + Offset(j, Unit(180.0, LatCount(n))) + Unit(180.0, LatCount(n)) / 2.0
  {
    OffsetNext(i, Unit(360.0, LonCount(n)));
    OffsetNext(j, Unit(180.0, LatCount(n)));
  }

  /** The sides of a grid cell, written out. */
  lemma GridSides(i: int, j: int, n: nat)
    ensures GridCell(i, j, n).max.x - GridCell(i, j, n).min.x == Unit(360.0, LonCount(n))
    ensures GridCell(i, j, n).max.y - GridCell(i, j, n).min.y == Unit(180.0, LatCount(n))
  {
    OffsetNext(i, Unit(360.0, LonCount(n)));
    OffsetNext(j, Unit(180.0, LatCount(n)));
  }

  /** A grid cell lies in the world exactly when its column and row are inside the grid. */
  lemma GridCellWithinWorld(i: int, j: int, n: nat)
    ensures Within(GridCell(i, j, n), World) <==>
      0 <= i < Pow2(LonCount(n)) && 0 <= j < Pow2(LatCount(n))
  {
    var c := GridCell(i, j, n);
    UnitFillsSide(360.0, LonCount(n));
    UnitFillsSide(180.0, LatCount(n));
    CellInRange(-180.0, Unit(360.0, LonCount(n)), Pow2(LonCount(n)), i, c.min.x, c.max.x, 360.0);
    CellInRange(-90.0, Unit(180.0, LatCount(n)), Pow2(LatCount(n)), j, c.min.y, c.max.y, 180.0);
  }

  /** The centre of a grid cell lies in the world exactly when its column and row are
      inside the grid. */
  lemma GridCentreInWorld(i: int, j: int, n: nat)
    ensures InWorld(Centre(GridCell(i, j, n))) <==>
      0 <= i < Pow2(LonCount(n)) && 0 <= j < Pow2(LatCount(n))
  {
    var c := Centre(GridCell(i, j, n));
    GridCentre(i, j, n);
    UnitFillsSide(360.0, LonCount(n));
    UnitFillsSide(180.0, LatCount(n));
    CentreInRange(-180.0, Unit(360.0, LonCount(n)), Pow2(LonCount(n)), i, c.x, 360.0);
    CentreInRange(-90.0, Unit(180.0, LatCount(n)), Pow2(LatCount(n)), j, c.y, 180.0);
  }

  /** A grid cell that contains the centre of another cell of the same grid is that cell. */
  lemma GridCentreOnlyInOwnCell(i: int, j: int, i': int, j': int, n: nat)
    requires Contains(GridCell(i', j', n), Centre(GridCell(i, j, n)))
    ensures i' == i && j' == j
  {
    var c := Centre(GridCell(i, j, n));
    GridCentre(i, j, n);
    CentreOnlyInOwnCell(-180.0, Unit(360.0, LonCount(n)), i, i', c.x);
    CentreOnlyInOwnCell(-90.0, Unit(180.0, LatCount(n)), j, j', c.y);
  }

  /** `r` moved by `dx` of its widths east and `dy` of its heights north. */
  function Shifted(r: Rect, dx: int, dy: int): Rect {
    var w, h := r.max.x - r.min.x, r.max.y - r.min.y;
    Rect(Coordinate(r.min.x + dx as real * w, r.min.y + dy as real * h),
         Coordinate(r.max.x + dx as real * w, r.max.y + dy as real * h))
  }

  /** A proper cell moved by a nonzero step is a different cell. */
  lemma ShiftMoves(r: Rect, dx: int, dy: int)
    requires Proper(r) && (dx != 0 || dy != 0)
    ensures Shifted(r, dx, dy) != r
  {
    var w, h := r.max.x - r.min.x, r.max.y - r.min.y;
    if dx != 0 {
      assert dx as real * w != 0.0;
      assert Shifted(r, dx, dy).min.x != r.min.x;
    } else {
      assert dy as real * h != 0.0;
      assert Shifted(r, dx, dy).min.y != r.min.y;
    }
  }

  /** Moving a cell and moving it back by the opposite step restores it. */
  lemma ShiftBack(r: Rect, dx: int, dy: int)
    ensures Shifted(Shifted(r, dx, dy), -dx, -dy) == r
  {
    var w, h := r.max.x - r.min.x, r.max.y - r.min.y;
    var m := Shifted(r, dx, dy);
    assert m.max.x - m.min.x == w && m.max.y - m.min.y == h;
    assert (-dx) as real * w == -(dx as real * w);
    assert (-dy) as real * h == -(dy as real * h);
    var b := Shifted(m, -dx, -dy);
    assert b.min == r.min && b.max == r.max;
  }

  /** A step of -1, 0 or 1 sides is that many cells along the axis. */
  lemma UnitStep(d: int, u: real)
    requires -1 <= d <= 1
    ensures d as real * u == Offset(d, u)
  {
  }

  /** The grid cell `dx` columns and `dy` rows away is the cell shifted by that many of its
      sides. */
  lemma GridShift(i: int, j: int, n: nat, dx: int, dy: int)
    requires -1 <= dx <= 1 && -1 <= dy <= 1
    ensures GridCell(i + dx, j + dy, n) == Shifted(GridCell(i, j, n), dx, dy)
  {
    var u := Unit(360.0, LonCount(n));
    var v := Unit(180.0, LatCount(n));
    GridSides(i, j, n);
    UnitStep(dx, u);
    UnitStep(dy, v);
    OffsetAdd(i, dx, u);
    OffsetAdd(i + 1, dx, u);
    OffsetAdd(j, dy, v);
    OffsetAdd(j + 1, dy, v);
    assert i + dx + 1 == i + 1 + dx && j + dy + 1 == j + 1 + dy;
  }
}
