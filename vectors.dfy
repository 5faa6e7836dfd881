/** The values the library documents and tests, proved of the model.

    `Cell_<h>` states the cell of the hash `<h>`: the cell of `<h>` without its last
    character, halved by that character's four bits (`CharStep`).
    `Neighbor_<h>_<D>` states the neighbour of `<h>` in direction `<D>`: the hash whose
    cell is `<h>`'s cell moved one step that way (`NeighborOfCells`).
    Each hash is a parameter pinned by a `requires`, so that the verifier reasons about
    one character at a time rather than evaluating whole literal strings. */
module Vectors {
  import opened GeohashTypes
  import opened Alphabet
  import opened Bitstream
  import opened Geohash

  // ---------------------------------------------------------------------------------
  // From cells to hashes

  /** Decoding one more character, its four halvings spelled out: cell `r0` of the
      first `idx` characters passes through `r1`, `r2` and `r3` and ends at `r4`. */
  lemma CharStep(s: string, idx: nat, v: nat, r0: Rect, r1: Rect, r2: Rect, r3: Rect, r4: Rect)
    requires idx < |s| && DecodeBboxSpec(s[..idx]) == Success(r0)
    requires HashValueOfChar(s[idx]) == Success(v)
    requires r1 == Refine(r0, 4 * idx, BitAt(v, 3)) && r2 == Refine(r1, 4 * idx + 1, BitAt(v, 2))
    requires r3 == Refine(r2, 4 * idx + 2, BitAt(v, 1)) && r4 == Refine(r3, 4 * idx + 3, BitAt(v, 0))
    ensures DecodeBboxSpec(s[..idx + 1]) == Success(r4)
  {
    assert NibbleBox(r0, 4 * idx, v, 4 * idx + 1) == r1;
    assert NibbleBox(r0, 4 * idx, v, 4 * idx + 2) == r2;
    assert NibbleBox(r0, 4 * idx, v, 4 * idx + 3) == r3;
    assert NibbleBox(r0, 4 * idx, v, 4 * idx + 4) == r4;
    DecodeBboxStep(s, idx, 4 * idx, v, r0, r4);
  }

  /** Every point the cell of a valid hash owns encodes, at the hash's length, to that
      hash. */
  lemma EncodeOfOwned(h: string, box: Rect, c: Coordinate)
    requires DecodeBboxSpec(h) == Success(box) && Owns(box, c)
    ensures EncodeSpec(c, |h|) == Success(h)
  {
    var bits := HashBits(h);
    BoxProper(bits);
    OwnedPointEncodes(bits, c);
    DigitsRebuildHash(h);
  }

  /** A hash `t` of the same length as `s`, whose cell is `s`'s cell moved one step in
      `direction` and still inside the world, is `s`'s neighbour in that direction. */
  lemma NeighborOfCells(s: string, direction: Direction, box: Rect, t: string, tbox: Rect)
    requires DecodeBboxSpec(s) == Success(box) && DecodeBboxSpec(t) == Success(tbox)
    requires |t| == |s| && tbox == StepCell(box, direction) && Within(tbox, World)
    ensures Neighbor(s, direction) == Success(t)
  {
    NeighborIsAdjacent(s, direction);
    SameCellSameHash(Neighbor(s, direction).value, t);
  }

  /** `a` lies within 0.00001 of `b`, the tolerance the decode tests allow. */
  predicate Near(a: real, b: real) {
    -0.00001 < a - b < 0.00001
  }

  // ---------------------------------------------------------------------------------

  // The documented examples

  /** The point (-120.6623, 35.3003) encodes at five characters to "4d8c0". */
  lemma EncodeDocExample(c: Coordinate, s: string)
    requires c == Coordinate(-120.6623, 35.3003) && s == "4d8c0"
    ensures EncodeSpec(c, 5) == Success(s)
  {
    Cell_4d8c0(s);
    EncodeOfOwned(s, Rect(Coordinate(-120.9375, 35.15625), Coordinate(-120.5859375, 35.33203125)), c);
  }

  /** The point (-120.6623, 35.3003) encodes at ten characters to "4d8c0f1817". */
  lemma EncodeDocLongExample(c: Coordinate, s: string)
    requires c == Coordinate(-120.6623, 35.3003) && s == "4d8c0f1817"
    ensures EncodeSpec(c, 10) == Success(s)
  {
    Cell_4d8c0f1817(s);
    EncodeOfOwned(s, Rect(Coordinate(-120.66249847412109375, 35.300273895263671875), Coordinate(-120.6621551513671875, 35.300445556640625)), c);
  }

  /** "4d8c0" decodes to the centre (-120.76171875, 35.244140625) with margins
      0.17578125 and 0.087890625. */
  lemma DecodeDocExample(s: string)
    requires s == "4d8c0"
    ensures Decode(s) == Success(Decoded(Coordinate(-120.76171875, 35.244140625),
                                        0.17578125, 0.087890625))
  {
    Cell_4d8c0(s);
    DecodeOfBox(s);
  }

  /** "4d8c0f1817" decodes to the centre (-120.662326812744140625,
      35.3003597259521484375) with margins 180 / 2^20 and 90 / 2^20. */
  lemma DecodeDocLongExample(s: string)
    requires s == "4d8c0f1817"
    ensures Decode(s) == Success(Decoded(Coordinate(-120.662326812744140625, 35.3003597259521484375),
                                        0.000171661376953125, 0.0000858306884765625))
  {
    Cell_4d8c0f1817(s);
    DecodeOfBox(s);
  }

  /** The eight neighbours of "4d8c0f1817". */
  lemma NeighborsDocExample(s: string)
    requires s == "4d8c0f1817"
    ensures Neighbors(s) == Success(NeighborSet(
      "4d8c0f1814", "4d8c0f1816", "4d8c0f181c", "4d8c0f1815",
      "4d8c0f181d", "4d8c0f1840", "4d8c0f1842", "4d8c0f1848"))
  {
    Neighbor_4d8c0f1817_SW(s, "4d8c0f1814");
    Neighbor_4d8c0f1817_S(s, "4d8c0f1816");
    Neighbor_4d8c0f1817_SE(s, "4d8c0f181c");
    Neighbor_4d8c0f1817_W(s, "4d8c0f1815");
    Neighbor_4d8c0f1817_E(s, "4d8c0f181d");
    Neighbor_4d8c0f1817_NW(s, "4d8c0f1840");
    Neighbor_4d8c0f1817_N(s, "4d8c0f1842");
    Neighbor_4d8c0f1817_NE(s, "4d8c0f1848");
  }

  // ---------------------------------------------------------------------------------

  // The tested examples

  /** The point (112.5584, 37.8324) encodes at twelve characters to "e71150dc9947". */
  lemma EncodeLongExample(c: Coordinate, s: string)
    requires c == Coordinate(112.5584, 37.8324) && s == "e71150dc9947"
    ensures EncodeSpec(c, 12) == Success(s)
  {
    Cell_e71150dc9947(s);
    EncodeOfOwned(s, Rect(Coordinate(112.558386325836181640625, 37.8323972225189208984375), Coordinate(112.55840778350830078125, 37.83240795135498046875)), c);
  }

  /** The point (117, 32) encodes at three characters to "e65". */
  lemma EncodeExample(c: Coordinate, s: string)
    requires c == Coordinate(117.0, 32.0) && s == "e65"
    ensures EncodeSpec(c, 3) == Success(s)
  {
    Cell_e65(s);
    EncodeOfOwned(s, Rect(Coordinate(112.5, 30.9375), Coordinate(118.125, 33.75)), c);
  }

  /** The point (190, -100) lies outside the world, so encoding it fails with the
      error carrying that point. */
  lemma EncodeRangeExample(c: Coordinate)
    requires c == Coordinate(190.0, -100.0)
    ensures EncodeSpec(c, 3) == Failure(InvalidCoordinateRange(c))
  {
  }

  /** "wwgj" does not decode: its first character is outside the alphabet. */
  lemma DecodeInvalidExample()
    ensures Decode("wwgj") == Failure(InvalidHashCharacter('w'))
  {
    assert FirstInvalid("wwgj", 0);
    DecodeBboxOutcome("wwgj");
  }

  /** "e71150" decodes to a centre within 0.00001 of (112.543945, 37.814941), with
      margins 180 / 4096 and 90 / 4096. */
  lemma DecodeExample(s: string)
    requires s == "e71150"
    ensures Decode(s) == Success(Decoded(Coordinate(112.5439453125, 37.81494140625),
                                        0.0439453125, 0.02197265625))
    ensures Near(Decode(s).value.centre.x, 112.543945) && Near(Decode(s).value.centre.y, 37.814941)
  {
    Cell_e71150(s);
    DecodeOfBox(s);
  }

  /** "e65b4a" decodes to a centre within 0.00001 of (117.02636, 32.01416), with
      margins 180 / 4096 and 90 / 4096. */
  lemma DecodeSecondExample(s: string)
    requires s == "e65b4a"
    ensures Decode(s) == Success(Decoded(Coordinate(117.0263671875, 32.01416015625),
                                        0.0439453125, 0.02197265625))
    ensures Near(Decode(s).value.centre.x, 117.02636) && Near(Decode(s).value.centre.y, 32.01416)
  {
    Cell_e65b4a(s);
    DecodeOfBox(s);
  }

  /** The eight neighbours of "e71150dc99". */
  lemma NeighborsExample(s: string)
    requires s == "e71150dc99"
    ensures Neighbors(s) == Success(NeighborSet(
      "e71150dc92", "e71150dc98", "e71150dc9a", "e71150dc93",
      "e71150dc9b", "e71150dc96", "e71150dc9c", "e71150dc9e"))
  {
    Neighbor_e71150dc99_SW(s, "e71150dc92");
    Neighbor_e71150dc99_S(s, "e71150dc98");
    Neighbor_e71150dc99_SE(s, "e71150dc9a");
    Neighbor_e71150dc99_W(s, "e71150dc93");
    Neighbor_e71150dc99_E(s, "e71150dc9b");
    Neighbor_e71150dc99_NW(s, "e71150dc96");
    Neighbor_e71150dc99_N(s, "e71150dc9c");
    Neighbor_e71150dc99_NE(s, "e71150dc9e");
  }

  /** The eight neighbours of "e7115", three of them across a boundary of the
      first two characters. */
  lemma NeighborsWideExample(s: string)
    requires s == "e7115"
    ensures Neighbors(s) == Success(NeighborSet(
      "e5bbe", "e7114", "e7116", "e5bbf",
      "e7117", "e5bea", "e7140", "e7142"))
  {
    Neighbor_e7115_SW(s, "e5bbe");
    Neighbor_e7115_S(s, "e7114");
    Neighbor_e7115_SE(s, "e7116");
    Neighbor_e7115_W(s, "e5bbf");
    Neighbor_e7115_E(s, "e7117");
    Neighbor_e7115_NW(s, "e5bea");
    Neighbor_e7115_N(s, "e7140");
    Neighbor_e7115_NE(s, "e7142");
  }
  // ---------------------------------------------------------------------------------
  // The cells of the example hashes

  lemma Cell_4(s: string)
    requires s == "4"
    ensures DecodeBboxSpec(s) == Success(Rect(Coordinate(-180.0, 0.0), Coordinate(-90.0, 45.0)))
  {
    assert s[..0] == [];
    CharStep(s, 0, 4,
             Rect(Coordinate(-180.0, -90.0), Coordinate(180.0, 90.0)),
             Rect(Coordinate(-180.0, -90.0), Coordinate(0.0, 90.0)),
             Rect(Coordinate(-180.0, 0.0), Coordinate(0.0, 90.0)),
             Rect(Coordinate(-180.0, 0.0), Coordinate(-90.0, 90.0)),
             Rect(Coordinate(-180.0, 0.0), Coordinate(-90.0, 45.0)));
    assert s[..1] == s;
  }

  lemma Cell_4d(s: string)
    requires s == "4d"
    ensures DecodeBboxSpec(s) == Success(Rect(Coordinate(-135.0, 33.75), Coordinate(-112.5, 45.0)))
  {
    Cell_4(s[..1]);
    CharStep(s, 1, 13,
             Rect(Coordinate(-180.0, 0.0), Coordinate(-90.0, 45.0)),
             Rect(Coordinate(-135.0, 0.0), Coordinate(-90.0, 45.0)),
             Rect(Coordinate(-135.0, 22.5), Coordinate(-90.0, 45.0)),
             Rect(Coordinate(-135.0, 22.5), Coordinate(-112.5, 45.0)),
             Rect(Coordinate(-135.0, 33.75), Coordinate(-112.5, 45.0)));
    assert s[..2] == s;
  }

  lemma Cell_4d8(s: string)
    requires s == "4d8"
    ensures DecodeBboxSpec(s) == Success(Rect(Coordinate(-123.75, 33.75), Coordinate(-118.125, 36.5625)))
  {
    Cell_4d(s[..2]);
    CharStep(s, 2, 8,
             Rect(Coordinate(-135.0, 33.75), Coordinate(-112.5, 45.0)),
             Rect(Coordinate(-123.75, 33.75), Coordinate(-112.5, 45.0)),
             Rect(Coordinate(-123.75, 33.75), Coordinate(-112.5, 39.375)),
             Rect(Coordinate(-123.75, 33.75), Coordinate(-118.125, 39.375)),
             Rect(Coordinate(-123.75, 33.75), Coordinate(-118.125, 36.5625)));
    assert s[..3] == s;
  }

  lemma Cell_4d8c(s: string)
    requires s == "4d8c"
    ensures DecodeBboxSpec(s) == Success(Rect(Coordinate(-120.9375, 35.15625), Coordinate(-119.53125, 35.859375)))
  {
    Cell_4d8(s[..3]);
    CharStep(s, 3, 12,
             Rect(Coordinate(-123.75, 33.75), Coordinate(-118.125, 36.5625)),
             Rect(Coordinate(-120.9375, 33.75), Coordinate(-118.125, 36.5625)),
             Rect(Coordinate(-120.9375, 35.15625), Coordinate(-118.125, 36.5625)),
             Rect(Coordinate(-120.9375, 35.15625), Coordinate(-119.53125, 36.5625)),
             Rect(Coordinate(-120.9375, 35.15625), Coordinate(-119.53125, 35.859375)));
    assert s[..4] == s;
  }

  lemma Cell_4d8c0(s: string)
    requires s == "4d8c0"
    ensures DecodeBboxSpec(s) == Success(Rect(Coordinate(-120.9375, 35.15625), Coordinate(-120.5859375, 35.33203125)))
  {
    Cell_4d8c(s[..4]);
    CharStep(s, 4, 0,
             Rect(Coordinate(-120.9375, 35.15625), Coordinate(-119.53125, 35.859375)),
             Rect(Coordinate(-120.9375, 35.15625), Coordinate(-120.234375, 35.859375)),
             Rect(Coordinate(-120.9375, 35.15625), Coordinate(-120.234375, 35.5078125)),
             Rect(Coordinate(-120.9375, 35.15625), Coordinate(-120.5859375, 35.5078125)),
             Rect(Coordinate(-120.9375, 35.15625), Coordinate(-120.5859375, 35.33203125)));
    assert s[..5] == s;
  }

  lemma Cell_4d8c0f(s: string)
    requires s == "4d8c0f"
    ensures DecodeBboxSpec(s) == Success(Rect(Coordinate(-120.673828125, 35.2880859375), Coordinate(-120.5859375, 35.33203125)))
  {
    Cell_4d8c0(s[..5]);
    CharStep(s, 5, 15,
             Rect(Coordinate(-120.9375, 35.15625), Coordinate(-120.5859375, 35.33203125)),
             Rect(Coordinate(-120.76171875, 35.15625), Coordinate(-120.5859375, 35.33203125)),
             Rect(Coordinate(-120.76171875, 35.244140625), Coordinate(-120.5859375, 35.33203125)),
             Rect(Coordinate(-120.673828125, 35.244140625), Coordinate(-120.5859375, 35.33203125)),
             Rect(Coordinate(-120.673828125, 35.2880859375), Coordinate(-120.5859375, 35.33203125)));
    assert s[..6] == s;
  }

  lemma Cell_4d8c0f1(s: string)
    requires s == "4d8c0f1"
    ensures DecodeBboxSpec(s) == Success(Rect(Coordinate(-120.673828125, 35.299072265625), Coordinate(-120.65185546875, 35.31005859375)))
  {
    Cell_4d8c0f(s[..6]);
    CharStep(s, 6, 1,
             Rect(Coordinate(-120.673828125, 35.2880859375), Coordinate(-120.5859375, 35.33203125)),
             Rect(Coordinate(-120.673828125, 35.2880859375), Coordinate(-120.6298828125, 35.33203125)),
             Rect(Coordinate(-120.673828125, 35.2880859375), Coordinate(-120.6298828125, 35.31005859375)),
             Rect(Coordinate(-120.673828125, 35.2880859375), Coordinate(-120.65185546875, 35.31005859375)),
             Rect(Coordinate(-120.673828125, 35.299072265625), Coordinate(-120.65185546875, 35.31005859375)));
    assert s[..7] == s;
  }

  lemma Cell_4d8c0f18(s: string)
    requires s == "4d8c0f18"
    ensures DecodeBboxSpec(s) == Success(Rect(Coordinate(-120.662841796875, 35.299072265625), Coordinate(-120.6573486328125, 35.30181884765625)))
  {
    Cell_4d8c0f1(s[..7]);
    CharStep(s, 7, 8,
             Rect(Coordinate(-120.673828125, 35.299072265625), Coordinate(-120.65185546875, 35.31005859375)),
             Rect(Coordinate(-120.662841796875, 35.299072265625), Coordinate(-120.65185546875, 35.31005859375)),
             Rect(Coordinate(-120.662841796875, 35.299072265625), Coordinate(-120.65185546875, 35.3045654296875)),
             Rect(Coordinate(-120.662841796875, 35.299072265625), Coordinate(-120.6573486328125, 35.3045654296875)),
             Rect(Coordinate(-120.662841796875, 35.299072265625), Coordinate(-120.6573486328125, 35.30181884765625)));
    assert s[..8] == s;
  }

  lemma Cell_4d8c0f181(s: string)
    requires s == "4d8c0f181"
    ensures DecodeBboxSpec(s) == Success(Rect(Coordinate(-120.662841796875, 35.2997589111328125), Coordinate(-120.661468505859375, 35.300445556640625)))
  {
    Cell_4d8c0f18(s[..8]);
    CharStep(s, 8, 1,
             Rect(Coordinate(-120.662841796875, 35.299072265625), Coordinate(-120.6573486328125, 35.30181884765625)),
             Rect(Coordinate(-120.662841796875, 35.299072265625), Coordinate(-120.66009521484375, 35.30181884765625)),
             Rect(Coordinate(-120.662841796875, 35.299072265625), Coordinate(-120.66009521484375, 35.300445556640625)),
             Rect(Coordinate(-120.662841796875, 35.299072265625), Coordinate(-120.661468505859375, 35.300445556640625)),
             Rect(Coordinate(-120.662841796875, 35.2997589111328125), Coordinate(-120.661468505859375, 35.300445556640625)));
    assert s[..9] == s;
  }

  lemma Cell_4d8c0f1814(s: string)
    requires s == "4d8c0f1814"
    ensures DecodeBboxSpec(s) == Success(Rect(Coordinate(-120.662841796875, 35.30010223388671875), Coordinate(-120.66249847412109375, 35.300273895263671875)))
  {
    Cell_4d8c0f181(s[..9]);
    CharStep(s, 9, 4,
             Rect(Coordinate(-120.662841796875, 35.2997589111328125), Coordinate(-120.661468505859375, 35.300445556640625)),
             Rect(Coordinate(-120.662841796875, 35.2997589111328125), Coordinate(-120.6621551513671875, 35.300445556640625)),
             Rect(Coordinate(-120.662841796875, 35.30010223388671875), Coordinate(-120.6621551513671875, 35.300445556640625)),
             Rect(Coordinate(-120.662841796875, 35.30010223388671875), Coordinate(-120.66249847412109375, 35.300445556640625)),
             Rect(Coordinate(-120.662841796875, 35.30010223388671875), Coordinate(-120.66249847412109375, 35.300273895263671875)));
    assert s[..10] == s;
  }

  lemma Cell_4d8c0f1815(s: string)
    requires s == "4d8c0f1815"
    ensures DecodeBboxSpec(s) == Success(Rect(Coordinate(-120.662841796875, 35.300273895263671875), Coordinate(-120.66249847412109375, 35.300445556640625)))
  {
    Cell_4d8c0f181(s[..9]);
    CharStep(s, 9, 5,
             Rect(Coordinate(-120.662841796875, 35.2997589111328125), Coordinate(-120.661468505859375, 35.300445556640625)),
             Rect(Coordinate(-120.662841796875, 35.2997589111328125), Coordinate(-120.6621551513671875, 35.300445556640625)),
             Rect(Coordinate(-120.662841796875, 35.30010223388671875), Coordinate(-120.6621551513671875, 35.300445556640625)),
             Rect(Coordinate(-120.662841796875, 35.30010223388671875), Coordinate(-120.66249847412109375, 35.300445556640625)),
             Rect(Coordinate(-120.662841796875, 35.300273895263671875), Coordinate(-120.66249847412109375, 35.300445556640625)));
    assert s[..10] == s;
  }

  lemma Cell_4d8c0f1816(s: string)
    requires s == "4d8c0f1816"
    ensures DecodeBboxSpec(s) == Success(Rect(Coordinate(-120.66249847412109375, 35.30010223388671875), Coordinate(-120.6621551513671875, 35.300273895263671875)))
  {
    Cell_4d8c0f181(s[..9]);
    CharStep(s, 9, 6,
             Rect(Coordinate(-120.662841796875, 35.2997589111328125), Coordinate(-120.661468505859375, 35.300445556640625)),
             Rect(Coordinate(-120.662841796875, 35.2997589111328125), Coordinate(-120.6621551513671875, 35.300445556640625)),
             Rect(Coordinate(-120.662841796875, 35.30010223388671875), Coordinate(-120.6621551513671875, 35.300445556640625)),
             Rect(Coordinate(-120.66249847412109375, 35.30010223388671875), Coordinate(-120.6621551513671875, 35.300445556640625)),
             Rect(Coordinate(-120.66249847412109375, 35.30010223388671875), Coordinate(-120.6621551513671875, 35.300273895263671875)));
    assert s[..10] == s;
  }

  lemma Cell_4d8c0f1817(s: string)
    requires s == "4d8c0f1817"
    ensures DecodeBboxSpec(s) == Success(Rect(Coordinate(-120.66249847412109375, 35.300273895263671875), Coordinate(-120.6621551513671875, 35.300445556640625)))
  {
    Cell_4d8c0f181(s[..9]);
    CharStep(s, 9, 7,
             Rect(Coordinate(-120.662841796875, 35.2997589111328125), Coordinate(-120.661468505859375, 35.300445556640625)),
             Rect(Coordinate(-120.662841796875, 35.2997589111328125), Coordinate(-120.6621551513671875, 35.300445556640625)),
             Rect(Coordinate(-120.662841796875, 35.30010223388671875), Coordinate(-120.6621551513671875, 35.300445556640625)),
             Rect(Coordinate(-120.66249847412109375, 35.30010223388671875), Coordinate(-120.6621551513671875, 35.300445556640625)),
             Rect(Coordinate(-120.66249847412109375, 35.300273895263671875), Coordinate(-120.6621551513671875, 35.300445556640625)));
    assert s[..10] == s;
  }

  lemma Cell_4d8c0f181c(s: string)
    requires s == "4d8c0f181c"
    ensures DecodeBboxSpec(s) == Success(Rect(Coordinate(-120.6621551513671875, 35.30010223388671875), Coordinate(-120.66181182861328125, 35.300273895263671875)))
  {
    Cell_4d8c0f181(s[..9]);
    CharStep(s, 9, 12,
             Rect(Coordinate(-120.662841796875, 35.2997589111328125), Coordinate(-120.661468505859375, 35.300445556640625)),
             Rect(Coordinate(-120.6621551513671875, 35.2997589111328125), Coordinate(-120.661468505859375, 35.300445556640625)),
             Rect(Coordinate(-120.6621551513671875, 35.30010223388671875), Coordinate(-120.661468505859375, 35.300445556640625)),
             Rect(Coordinate(-120.6621551513671875, 35.30010223388671875), Coordinate(-120.66181182861328125, 35.300445556640625)),
             Rect(Coordinate(-120.6621551513671875, 35.30010223388671875), Coordinate(-120.66181182861328125, 35.300273895263671875)));
    assert s[..10] == s;
  }

  lemma Cell_4d8c0f181d(s: string)
    requires s == "4d8c0f181d"
    ensures DecodeBboxSpec(s) == Success(Rect(Coordinate(-120.6621551513671875, 35.300273895263671875), Coordinate(-120.66181182861328125, 35.300445556640625)))
  {
    Cell_4d8c0f181(s[..9]);
    CharStep(s, 9, 13,
             Rect(Coordinate(-120.662841796875, 35.2997589111328125), Coordinate(-120.661468505859375, 35.300445556640625)),
             Rect(Coordinate(-120.6621551513671875, 35.2997589111328125), Coordinate(-120.661468505859375, 35.300445556640625)),
             Rect(Coordinate(-120.6621551513671875, 35.30010223388671875), Coordinate(-120.661468505859375, 35.300445556640625)),
             Rect(Coordinate(-120.6621551513671875, 35.30010223388671875), Coordinate(-120.66181182861328125, 35.300445556640625)),
             Rect(Coordinate(-120.6621551513671875, 35.300273895263671875), Coordinate(-120.66181182861328125, 35.300445556640625)));
    assert s[..10] == s;
  }

  lemma Cell_4d8c0f184(s: string)
    requires s == "4d8c0f184"
    ensures DecodeBboxSpec(s) == Success(Rect(Coordinate(-120.662841796875, 35.300445556640625), Coordinate(-120.661468505859375, 35.3011322021484375)))
  {
    Cell_4d8c0f18(s[..8]);
    CharStep(s, 8, 4,
             Rect(Coordinate(-120.662841796875, 35.299072265625), Coordinate(-120.6573486328125, 35.30181884765625)),
             Rect(Coordinate(-120.662841796875, 35.299072265625), Coordinate(-120.66009521484375, 35.30181884765625)),
             Rect(Coordinate(-120.662841796875, 35.300445556640625), Coordinate(-120.66009521484375, 35.30181884765625)),
             Rect(Coordinate(-120.662841796875, 35.300445556640625), Coordinate(-120.661468505859375, 35.30181884765625)),
             Rect(Coordinate(-120.662841796875, 35.300445556640625), Coordinate(-120.661468505859375, 35.3011322021484375)));
    assert s[..9] == s;
  }

  lemma Cell_4d8c0f1840(s: string)
    requires s == "4d8c0f1840"
    ensures DecodeBboxSpec(s) == Success(Rect(Coordinate(-120.662841796875, 35.300445556640625), Coordinate(-120.66249847412109375, 35.300617218017578125)))
  {
    Cell_4d8c0f184(s[..9]);
    CharStep(s, 9, 0,
             Rect(Coordinate(-120.662841796875, 35.300445556640625), Coordinate(-120.661468505859375, 35.3011322021484375)),
             Rect(Coordinate(-120.662841796875, 35.300445556640625), Coordinate(-120.6621551513671875, 35.3011322021484375)),
             Rect(Coordinate(-120.662841796875, 35.300445556640625), Coordinate(-120.6621551513671875, 35.30078887939453125)),
             Rect(Coordinate(-120.662841796875, 35.300445556640625), Coordinate(-120.66249847412109375, 35.30078887939453125)),
             Rect(Coordinate(-120.662841796875, 35.300445556640625), Coordinate(-120.66249847412109375, 35.300617218017578125)));
    assert s[..10] == s;
  }

  lemma Cell_4d8c0f1842(s: string)
    requires s == "4d8c0f1842"
    ensures DecodeBboxSpec(s) == Success(Rect(Coordinate(-120.66249847412109375, 35.300445556640625), Coordinate(-120.6621551513671875, 35.300617218017578125)))
  {
    Cell_4d8c0f184(s[..9]);
    CharStep(s, 9, 2,
             Rect(Coordinate(-120.662841796875, 35.300445556640625), Coordinate(-120.661468505859375, 35.3011322021484375)),
             Rect(Coordinate(-120.662841796875, 35.300445556640625), Coordinate(-120.6621551513671875, 35.3011322021484375)),
             Rect(Coordinate(-120.662841796875, 35.300445556640625), Coordinate(-120.6621551513671875, 35.30078887939453125)),
             Rect(Coordinate(-120.66249847412109375, 35.300445556640625), Coordinate(-120.6621551513671875, 35.30078887939453125)),
             Rect(Coordinate(-120.66249847412109375, 35.300445556640625), Coordinate(-120.6621551513671875, 35.300617218017578125)));
    assert s[..10] == s;
  }

  lemma Cell_4d8c0f1848(s: string)
    requires s == "4d8c0f1848"
    ensures DecodeBboxSpec(s) == Success(Rect(Coordinate(-120.6621551513671875, 35.300445556640625), Coordinate(-120.66181182861328125, 35.300617218017578125)))
  {
    Cell_4d8c0f184(s[..9]);
    CharStep(s, 9, 8,
             Rect(Coordinate(-120.662841796875, 35.300445556640625), Coordinate(-120.661468505859375, 35.3011322021484375)),
             Rect(Coordinate(-120.6621551513671875, 35.300445556640625), Coordinate(-120.661468505859375, 35.3011322021484375)),
             Rect(Coordinate(-120.6621551513671875, 35.300445556640625), Coordinate(-120.661468505859375, 35.30078887939453125)),
             Rect(Coordinate(-120.6621551513671875, 35.300445556640625), Coordinate(-120.66181182861328125, 35.30078887939453125)),
             Rect(Coordinate(-120.6621551513671875, 35.300445556640625), Coordinate(-120.66181182861328125, 35.300617218017578125)));
    assert s[..10] == s;
  }

  lemma Cell_e(s: string)
    requires s == "e"
    ensures DecodeBboxSpec(s) == Success(Rect(Coordinate(90.0, 0.0), Coordinate(180.0, 45.0)))
  {
    assert s[..0] == [];
    CharStep(s, 0, 14,
             Rect(Coordinate(-180.0, -90.0), Coordinate(180.0, 90.0)),
             Rect(Coordinate(0.0, -90.0), Coordinate(180.0, 90.0)),
             Rect(Coordinate(0.0, 0.0), Coordinate(180.0, 90.0)),
             Rect(Coordinate(90.0, 0.0), Coordinate(180.0, 90.0)),
             Rect(Coordinate(90.0, 0.0), Coordinate(180.0, 45.0)));
    assert s[..1] == s;
  }

  lemma Cell_e5(s: string)
    requires s == "e5"
    ensures DecodeBboxSpec(s) == Success(Rect(Coordinate(90.0, 33.75), Coordinate(112.5, 45.0)))
  {
    Cell_e(s[..1]);
    CharStep(s, 1, 5,
             Rect(Coordinate(90.0, 0.0), Coordinate(180.0, 45.0)),
             Rect(Coordinate(90.0, 0.0), Coordinate(135.0, 45.0)),
             Rect(Coordinate(90.0, 22.5), Coordinate(135.0, 45.0)),
             Rect(Coordinate(90.0, 22.5), Coordinate(112.5, 45.0)),
             Rect(Coordinate(90.0, 33.75), Coordinate(112.5, 45.0)));
    assert s[..2] == s;
  }

  lemma Cell_e5b(s: string)
    requires s == "e5b"
    ensures DecodeBboxSpec(s) == Success(Rect(Coordinate(106.875, 36.5625), Coordinate(112.5, 39.375)))
  {
    Cell_e5(s[..2]);
    CharStep(s, 2, 11,
             Rect(Coordinate(90.0, 33.75), Coordinate(112.5, 45.0)),
             Rect(Coordinate(101.25, 33.75), Coordinate(112.5, 45.0)),
             Rect(Coordinate(101.25, 33.75), Coordinate(112.5, 39.375)),
             Rect(Coordinate(106.875, 33.75), Coordinate(112.5, 39.375)),
             Rect(Coordinate(106.875, 36.5625), Coordinate(112.5, 39.375)));
    assert s[..3] == s;
  }

  lemma Cell_e5bb(s: string)
    requires s == "e5bb"
    ensures DecodeBboxSpec(s) == Success(Rect(Coordinate(111.09375, 37.265625), Coordinate(112.5, 37.96875)))
  {
    Cell_e5b(s[..3]);
    CharStep(s, 3, 11,
             Rect(Coordinate(106.875, 36.5625), Coordinate(112.5, 39.375)),
             Rect(Coordinate(109.6875, 36.5625), Coordinate(112.5, 39.375)),
             Rect(Coordinate(109.6875, 36.5625), Coordinate(112.5, 37.96875)),
             Rect(Coordinate(111.09375, 36.5625), Coordinate(112.5, 37.96875)),
             Rect(Coordinate(111.09375, 37.265625), Coordinate(112.5, 37.96875)));
    assert s[..4] == s;
  }

  lemma Cell_e5bbe(s: string)
    requires s == "e5bbe"
    ensures DecodeBboxSpec(s) == Success(Rect(Coordinate(112.1484375, 37.6171875), Coordinate(112.5, 37.79296875)))
  {
    Cell_e5bb(s[..4]);
    CharStep(s, 4, 14,
             Rect(Coordinate(111.09375, 37.265625), Coordinate(112.5, 37.96875)),
             Rect(Coordinate(111.796875, 37.265625), Coordinate(112.5, 37.96875)),
             Rect(Coordinate(111.796875, 37.6171875), Coordinate(112.5, 37.96875)),
             Rect(Coordinate(112.1484375, 37.6171875), Coordinate(112.5, 37.96875)),
             Rect(Coordinate(112.1484375, 37.6171875), Coordinate(112.5, 37.79296875)));
    assert s[..5] == s;
  }

  lemma Cell_e5bbf(s: string)
    requires s == "e5bbf"
    ensures DecodeBboxSpec(s) == Success(Rect(Coordinate(112.1484375, 37.79296875), Coordinate(112.5, 37.96875)))
  {
    Cell_e5bb(s[..4]);
    CharStep(s, 4, 15,
             Rect(Coordinate(111.09375, 37.265625), Coordinate(112.5, 37.96875)),
             Rect(Coordinate(111.796875, 37.265625), Coordinate(112.5, 37.96875)),
             Rect(Coordinate(111.796875, 37.6171875), Coordinate(112.5, 37.96875)),
             Rect(Coordinate(112.1484375, 37.6171875), Coordinate(112.5, 37.96875)),
             Rect(Coordinate(112.1484375, 37.79296875), Coordinate(112.5, 37.96875)));
    assert s[..5] == s;
  }

  lemma Cell_e5be(s: string)
    requires s == "e5be"
    ensures DecodeBboxSpec(s) == Success(Rect(Coordinate(111.09375, 37.96875), Coordinate(112.5, 38.671875)))
  {
    Cell_e5b(s[..3]);
    CharStep(s, 3, 14,
             Rect(Coordinate(106.875, 36.5625), Coordinate(112.5, 39.375)),
             Rect(Coordinate(109.6875, 36.5625), Coordinate(112.5, 39.375)),
             Rect(Coordinate(109.6875, 37.96875), Coordinate(112.5, 39.375)),
             Rect(Coordinate(111.09375, 37.96875), Coordinate(112.5, 39.375)),
             Rect(Coordinate(111.09375, 37.96875), Coordinate(112.5, 38.671875)));
    assert s[..4] == s;
  }

  lemma Cell_e5bea(s: string)
    requires s == "e5bea"
    ensures DecodeBboxSpec(s) == Success(Rect(Coordinate(112.1484375, 37.96875), Coordinate(112.5, 38.14453125)))
  {
    Cell_e5be(s[..4]);
    CharStep(s, 4, 10,
             Rect(Coordinate(111.09375, 37.96875), Coordinate(112.5, 38.671875)),
             Rect(Coordinate(111.796875, 37.96875), Coordinate(112.5, 38.671875)),
             Rect(Coordinate(111.796875, 37.96875), Coordinate(112.5, 38.3203125)),
             Rect(Coordinate(112.1484375, 37.96875), Coordinate(112.5, 38.3203125)),
             Rect(Coordinate(112.1484375, 37.96875), Coordinate(112.5, 38.14453125)));
    assert s[..5] == s;
  }

  lemma Cell_e6(s: string)
    requires s == "e6"
    ensures DecodeBboxSpec(s) == Success(Rect(Coordinate(112.5, 22.5), Coordinate(135.0, 33.75)))
  {
    Cell_e(s[..1]);
    CharStep(s, 1, 6,
             Rect(Coordinate(90.0, 0.0), Coordinate(180.0, 45.0)),
             Rect(Coordinate(90.0, 0.0), Coordinate(135.0, 45.0)),
             Rect(Coordinate(90.0, 22.5), Coordinate(135.0, 45.0)),
             Rect(Coordinate(112.5, 22.5), Coordinate(135.0, 45.0)),
             Rect(Coordinate(112.5, 22.5), Coordinate(135.0, 33.75)));
    assert s[..2] == s;
  }

  lemma Cell_e65(s: string)
    requires s == "e65"
    ensures DecodeBboxSpec(s) == Success(Rect(Coordinate(112.5, 30.9375), Coordinate(118.125, 33.75)))
  {
    Cell_e6(s[..2]);
    CharStep(s, 2, 5,
             Rect(Coordinate(112.5, 22.5), Coordinate(135.0, 33.75)),
             Rect(Coordinate(112.5, 22.5), Coordinate(123.75, 33.75)),
             Rect(Coordinate(112.5, 28.125), Coordinate(123.75, 33.75)),
             Rect(Coordinate(112.5, 28.125), Coordinate(118.125, 33.75)),
             Rect(Coordinate(112.5, 30.9375), Coordinate(118.125, 33.75)));
    assert s[..3] == s;
  }

  lemma Cell_e65b(s: string)
    requires s == "e65b"
    ensures DecodeBboxSpec(s) == Success(Rect(Coordinate(116.71875, 31.640625), Coordinate(118.125, 32.34375)))
  {
    Cell_e65(s[..3]);
    CharStep(s, 3, 11,
             Rect(Coordinate(112.5, 30.9375), Coordinate(118.125, 33.75)),
             Rect(Coordinate(115.3125, 30.9375), Coordinate(118.125, 33.75)),
             Rect(Coordinate(115.3125, 30.9375), Coordinate(118.125, 32.34375)),
             Rect(Coordinate(116.71875, 30.9375), Coordinate(118.125, 32.34375)),
             Rect(Coordinate(116.71875, 31.640625), Coordinate(118.125, 32.34375)));
    assert s[..4] == s;
  }

  lemma Cell_e65b4(s: string)
    requires s == "e65b4"
    ensures DecodeBboxSpec(s) == Success(Rect(Coordinate(116.71875, 31.9921875), Coordinate(117.0703125, 32.16796875)))
  {
    Cell_e65b(s[..4]);
    CharStep(s, 4, 4,
             Rect(Coordinate(116.71875, 31.640625), Coordinate(118.125, 32.34375)),
             Rect(Coordinate(116.71875, 31.640625), Coordinate(117.421875, 32.34375)),
             Rect(Coordinate(116.71875, 31.9921875), Coordinate(117.421875, 32.34375)),
             Rect(Coordinate(116.71875, 31.9921875), Coordinate(117.0703125, 32.34375)),
             Rect(Coordinate(116.71875, 31.9921875), Coordinate(117.0703125, 32.16796875)));
    assert s[..5] == s;
  }

  lemma Cell_e65b4a(s: string)
    requires s == "e65b4a"
    ensures DecodeBboxSpec(s) == Success(Rect(Coordinate(116.982421875, 31.9921875), Coordinate(117.0703125, 32.0361328125)))
  {
    Cell_e65b4(s[..5]);
    CharStep(s, 5, 10,
             Rect(Coordinate(116.71875, 31.9921875), Coordinate(117.0703125, 32.16796875)),
             Rect(Coordinate(116.89453125, 31.9921875), Coordinate(117.0703125, 32.16796875)),
             Rect(Coordinate(116.89453125, 31.9921875), Coordinate(117.0703125, 32.080078125)),
             Rect(Coordinate(116.982421875, 31.9921875), Coordinate(117.0703125, 32.080078125)),
             Rect(Coordinate(116.982421875, 31.9921875), Coordinate(117.0703125, 32.0361328125)));
    assert s[..6] == s;
  }

  lemma Cell_e7(s: string)
    requires s == "e7"
    ensures DecodeBboxSpec(s) == Success(Rect(Coordinate(112.5, 33.75), Coordinate(135.0, 45.0)))
  {
    Cell_e(s[..1]);
    CharStep(s, 1, 7,
             Rect(Coordinate(90.0, 0.0), Coordinate(180.0, 45.0)),
             Rect(Coordinate(90.0, 0.0), Coordinate(135.0, 45.0)),
             Rect(Coordinate(90.0, 22.5), Coordinate(135.0, 45.0)),
             Rect(Coordinate(112.5, 22.5), Coordinate(135.0, 45.0)),
             Rect(Coordinate(112.5, 33.75), Coordinate(135.0, 45.0)));
    assert s[..2] == s;
  }

  lemma Cell_e71(s: string)
    requires s == "e71"
    ensures DecodeBboxSpec(s) == Success(Rect(Coordinate(112.5, 36.5625), Coordinate(118.125, 39.375)))
  {
    Cell_e7(s[..2]);
    CharStep(s, 2, 1,
             Rect(Coordinate(112.5, 33.75), Coordinate(135.0, 45.0)),
             Rect(Coordinate(112.5, 33.75), Coordinate(123.75, 45.0)),
             Rect(Coordinate(112.5, 33.75), Coordinate(123.75, 39.375)),
             Rect(Coordinate(112.5, 33.75), Coordinate(118.125, 39.375)),
             Rect(Coordinate(112.5, 36.5625), Coordinate(118.125, 39.375)));
    assert s[..3] == s;
  }

  lemma Cell_e711(s: string)
    requires s == "e711"
    ensures DecodeBboxSpec(s) == Success(Rect(Coordinate(112.5, 37.265625), Coordinate(113.90625, 37.96875)))
  {
    Cell_e71(s[..3]);
    CharStep(s, 3, 1,
             Rect(Coordinate(112.5, 36.5625), Coordinate(118.125, 39.375)),
             Rect(Coordinate(112.5, 36.5625), Coordinate(115.3125, 39.375)),
             Rect(Coordinate(112.5, 36.5625), Coordinate(115.3125, 37.96875)),
             Rect(Coordinate(112.5, 36.5625), Coordinate(113.90625, 37.96875)),
             Rect(Coordinate(112.5, 37.265625), Coordinate(113.90625, 37.96875)));
    assert s[..4] == s;
  }

  lemma Cell_e7114(s: string)
    requires s == "e7114"
    ensures DecodeBboxSpec(s) == Success(Rect(Coordinate(112.5, 37.6171875), Coordinate(112.8515625, 37.79296875)))
  {
    Cell_e711(s[..4]);
    CharStep(s, 4, 4,
             Rect(Coordinate(112.5, 37.265625), Coordinate(113.90625, 37.96875)),
             Rect(Coordinate(112.5, 37.265625), Coordinate(113.203125, 37.96875)),
             Rect(Coordinate(112.5, 37.6171875), Coordinate(113.203125, 37.96875)),
             Rect(Coordinate(112.5, 37.6171875), Coordinate(112.8515625, 37.96875)),
             Rect(Coordinate(112.5, 37.6171875), Coordinate(112.8515625, 37.79296875)));
    assert s[..5] == s;
  }

  lemma Cell_e7115(s: string)
    requires s == "e7115"
    ensures DecodeBboxSpec(s) == Success(Rect(Coordinate(112.5, 37.79296875), Coordinate(112.8515625, 37.96875)))
  {
    Cell_e711(s[..4]);
    CharStep(s, 4, 5,
             Rect(Coordinate(112.5, 37.265625), Coordinate(113.90625, 37.96875)),
             Rect(Coordinate(112.5, 37.265625), Coordinate(113.203125, 37.96875)),
             Rect(Coordinate(112.5, 37.6171875), Coordinate(113.203125, 37.96875)),
             Rect(Coordinate(112.5, 37.6171875), Coordinate(112.8515625, 37.96875)),
             Rect(Coordinate(112.5, 37.79296875), Coordinate(112.8515625, 37.96875)));
    assert s[..5] == s;
  }

  lemma Cell_e71150(s: string)
    requires s == "e71150"
    ensures DecodeBboxSpec(s) == Success(Rect(Coordinate(112.5, 37.79296875), Coordinate(112.587890625, 37.8369140625)))
  {
    Cell_e7115(s[..5]);
    CharStep(s, 5, 0,
             Rect(Coordinate(112.5, 37.79296875), Coordinate(112.8515625, 37.96875)),
             Rect(Coordinate(112.5, 37.79296875), Coordinate(112.67578125, 37.96875)),
             Rect(Coordinate(112.5, 37.79296875), Coordinate(112.67578125, 37.880859375)),
             Rect(Coordinate(112.5, 37.79296875), Coordinate(112.587890625, 37.880859375)),
             Rect(Coordinate(112.5, 37.79296875), Coordinate(112.587890625, 37.8369140625)));
    assert s[..6] == s;
  }

  lemma Cell_e71150d(s: string)
    requires s == "e71150d"
    ensures DecodeBboxSpec(s) == Success(Rect(Coordinate(112.5439453125, 37.825927734375), Coordinate(112.56591796875, 37.8369140625)))
  {
    Cell_e71150(s[..6]);
    CharStep(s, 6, 13,
             Rect(Coordinate(112.5, 37.79296875), Coordinate(112.587890625, 37.8369140625)),
             Rect(Coordinate(112.5439453125, 37.79296875), Coordinate(112.587890625, 37.8369140625)),
             Rect(Coordinate(112.5439453125, 37.81494140625), Coordinate(112.587890625, 37.8369140625)),
             Rect(Coordinate(112.5439453125, 37.81494140625), Coordinate(112.56591796875, 37.8369140625)),
             Rect(Coordinate(112.5439453125, 37.825927734375), Coordinate(112.56591796875, 37.8369140625)));
    assert s[..7] == s;
  }

  lemma Cell_e71150dc(s: string)
    requires s == "e71150dc"
    ensures DecodeBboxSpec(s) == Success(Rect(Coordinate(112.554931640625, 37.8314208984375), Coordinate(112.5604248046875, 37.83416748046875)))
  {
    Cell_e71150d(s[..7]);
    CharStep(s, 7, 12,
             Rect(Coordinate(112.5439453125, 37.825927734375), Coordinate(112.56591796875, 37.8369140625)),
             Rect(Coordinate(112.554931640625, 37.825927734375), Coordinate(112.56591796875, 37.8369140625)),
             Rect(Coordinate(112.554931640625, 37.8314208984375), Coordinate(112.56591796875, 37.8369140625)),
             Rect(Coordinate(112.554931640625, 37.8314208984375), Coordinate(112.5604248046875, 37.8369140625)),
             Rect(Coordinate(112.554931640625, 37.8314208984375), Coordinate(112.5604248046875, 37.83416748046875)));
    assert s[..8] == s;
  }

  lemma Cell_e71150dc9(s: string)
    requires s == "e71150dc9"
    ensures DecodeBboxSpec(s) == Success(Rect(Coordinate(112.55767822265625, 37.8321075439453125), Coordinate(112.559051513671875, 37.832794189453125)))
  {
    Cell_e71150dc(s[..8]);
    CharStep(s, 8, 9,
             Rect(Coordinate(112.554931640625, 37.8314208984375), Coordinate(112.5604248046875, 37.83416748046875)),
             Rect(Coordinate(112.55767822265625, 37.8314208984375), Coordinate(112.5604248046875, 37.83416748046875)),
             Rect(Coordinate(112.55767822265625, 37.8314208984375), Coordinate(112.5604248046875, 37.832794189453125)),
             Rect(Coordinate(112.55767822265625, 37.8314208984375), Coordinate(112.559051513671875, 37.832794189453125)),
             Rect(Coordinate(112.55767822265625, 37.8321075439453125), Coordinate(112.559051513671875, 37.832794189453125)));
    assert s[..9] == s;
  }

  lemma Cell_e71150dc92(s: string)
    requires s == "e71150dc92"
    ensures DecodeBboxSpec(s) == Success(Rect(Coordinate(112.55802154541015625, 37.8321075439453125), Coordinate(112.5583648681640625, 37.832279205322265625)))
  {
    Cell_e71150dc9(s[..9]);
    CharStep(s, 9, 2,
             Rect(Coordinate(112.55767822265625, 37.8321075439453125), Coordinate(112.559051513671875, 37.832794189453125)),
             Rect(Coordinate(112.55767822265625, 37.8321075439453125), Coordinate(112.5583648681640625, 37.832794189453125)),
             Rect(Coordinate(112.55767822265625, 37.8321075439453125), Coordinate(112.5583648681640625, 37.83245086669921875)),
             Rect(Coordinate(112.55802154541015625, 37.8321075439453125), Coordinate(112.5583648681640625, 37.83245086669921875)),
             Rect(Coordinate(112.55802154541015625, 37.8321075439453125), Coordinate(112.5583648681640625, 37.832279205322265625)));
    assert s[..10] == s;
  }

  lemma Cell_e71150dc93(s: string)
    requires s == "e71150dc93"
    ensures DecodeBboxSpec(s) == Success(Rect(Coordinate(112.55802154541015625, 37.832279205322265625), Coordinate(112.5583648681640625, 37.83245086669921875)))
  {
    Cell_e71150dc9(s[..9]);
    CharStep(s, 9, 3,
             Rect(Coordinate(112.55767822265625, 37.8321075439453125), Coordinate(112.559051513671875, 37.832794189453125)),
             Rect(Coordinate(112.55767822265625, 37.8321075439453125), Coordinate(112.5583648681640625, 37.832794189453125)),
             Rect(Coordinate(112.55767822265625, 37.8321075439453125), Coordinate(112.5583648681640625, 37.83245086669921875)),
             Rect(Coordinate(112.55802154541015625, 37.8321075439453125), Coordinate(112.5583648681640625, 37.83245086669921875)),
             Rect(Coordinate(112.55802154541015625, 37.832279205322265625), Coordinate(112.5583648681640625, 37.83245086669921875)));
    assert s[..10] == s;
  }

  lemma Cell_e71150dc96(s: string)
    requires s == "e71150dc96"
    ensures DecodeBboxSpec(s) == Success(Rect(Coordinate(112.55802154541015625, 37.83245086669921875), Coordinate(112.5583648681640625, 37.832622528076171875)))
  {
    Cell_e71150dc9(s[..9]);
    CharStep(s, 9, 6,
             Rect(Coordinate(112.55767822265625, 37.8321075439453125), Coordinate(112.559051513671875, 37.832794189453125)),
             Rect(Coordinate(112.55767822265625, 37.8321075439453125), Coordinate(112.5583648681640625, 37.832794189453125)),
             Rect(Coordinate(112.55767822265625, 37.83245086669921875), Coordinate(112.5583648681640625, 37.832794189453125)),
             Rect(Coordinate(112.55802154541015625, 37.83245086669921875), Coordinate(112.5583648681640625, 37.832794189453125)),
             Rect(Coordinate(112.55802154541015625, 37.83245086669921875), Coordinate(112.5583648681640625, 37.832622528076171875)));
    assert s[..10] == s;
  }

  lemma Cell_e71150dc98(s: string)
    requires s == "e71150dc98"
    ensures DecodeBboxSpec(s) == Success(Rect(Coordinate(112.5583648681640625, 37.8321075439453125), Coordinate(112.55870819091796875, 37.832279205322265625)))
  {
    Cell_e71150dc9(s[..9]);
    CharStep(s, 9, 8,
             Rect(Coordinate(112.55767822265625, 37.8321075439453125), Coordinate(112.559051513671875, 37.832794189453125)),
             Rect(Coordinate(112.5583648681640625, 37.8321075439453125), Coordinate(112.559051513671875, 37.832794189453125)),
             Rect(Coordinate(112.5583648681640625, 37.8321075439453125), Coordinate(112.559051513671875, 37.83245086669921875)),
             Rect(Coordinate(112.5583648681640625, 37.8321075439453125), Coordinate(112.55870819091796875, 37.83245086669921875)),
             Rect(Coordinate(112.5583648681640625, 37.8321075439453125), Coordinate(112.55870819091796875, 37.832279205322265625)));
    assert s[..10] == s;
  }

  lemma Cell_e71150dc99(s: string)
    requires s == "e71150dc99"
    ensures DecodeBboxSpec(s) == Success(Rect(Coordinate(112.5583648681640625, 37.832279205322265625), Coordinate(112.55870819091796875, 37.83245086669921875)))
  {
    Cell_e71150dc9(s[..9]);
    CharStep(s, 9, 9,
             Rect(Coordinate(112.55767822265625, 37.8321075439453125), Coordinate(112.559051513671875, 37.832794189453125)),
             Rect(Coordinate(112.5583648681640625, 37.8321075439453125), Coordinate(112.559051513671875, 37.832794189453125)),
             Rect(Coordinate(112.5583648681640625, 37.8321075439453125), Coordinate(112.559051513671875, 37.83245086669921875)),
             Rect(Coordinate(112.5583648681640625, 37.8321075439453125), Coordinate(112.55870819091796875, 37.83245086669921875)),
             Rect(Coordinate(112.5583648681640625, 37.832279205322265625), Coordinate(112.55870819091796875, 37.83245086669921875)));
    assert s[..10] == s;
  }

  lemma Cell_e71150dc994(s: string)
    requires s == "e71150dc994"
    ensures DecodeBboxSpec(s) == Success(Rect(Coordinate(112.5583648681640625, 37.8323650360107421875), Coordinate(112.5584506988525390625, 37.83240795135498046875)))
  {
    Cell_e71150dc99(s[..10]);
    CharStep(s, 10, 4,
             Rect(Coordinate(112.5583648681640625, 37.832279205322265625), Coordinate(112.55870819091796875, 37.83245086669921875)),
             Rect(Coordinate(112.5583648681640625, 37.832279205322265625), Coordinate(112.558536529541015625, 37.83245086669921875)),
             Rect(Coordinate(112.5583648681640625, 37.8323650360107421875), Coordinate(112.558536529541015625, 37.83245086669921875)),
             Rect(Coordinate(112.5583648681640625, 37.8323650360107421875), Coordinate(112.5584506988525390625, 37.83245086669921875)),
             Rect(Coordinate(112.5583648681640625, 37.8323650360107421875), Coordinate(112.5584506988525390625, 37.83240795135498046875)));
    assert s[..11] == s;
  }

  lemma Cell_e71150dc9947(s: string)
    requires s == "e71150dc9947"
    ensures DecodeBboxSpec(s) == Success(Rect(Coordinate(112.558386325836181640625, 37.8323972225189208984375), Coordinate(112.55840778350830078125, 37.83240795135498046875)))
  {
    Cell_e71150dc994(s[..11]);
    CharStep(s, 11, 7,
             Rect(Coordinate(112.5583648681640625, 37.8323650360107421875), Coordinate(112.5584506988525390625, 37.83240795135498046875)),
             Rect(Coordinate(112.5583648681640625, 37.8323650360107421875), Coordinate(112.55840778350830078125, 37.83240795135498046875)),
             Rect(Coordinate(112.5583648681640625, 37.832386493682861328125), Coordinate(112.55840778350830078125, 37.83240795135498046875)),
             Rect(Coordinate(112.558386325836181640625, 37.832386493682861328125), Coordinate(112.55840778350830078125, 37.83240795135498046875)),
             Rect(Coordinate(112.558386325836181640625, 37.8323972225189208984375), Coordinate(112.55840778350830078125, 37.83240795135498046875)));
    assert s[..12] == s;
  }

  lemma Cell_e71150dc9a(s: string)
    requires s == "e71150dc9a"
    ensures DecodeBboxSpec(s) == Success(Rect(Coordinate(112.55870819091796875, 37.8321075439453125), Coordinate(112.559051513671875, 37.832279205322265625)))
  {
    Cell_e71150dc9(s[..9]);
    CharStep(s, 9, 10,
             Rect(Coordinate(112.55767822265625, 37.8321075439453125), Coordinate(112.559051513671875, 37.832794189453125)),
             Rect(Coordinate(112.5583648681640625, 37.8321075439453125), Coordinate(112.559051513671875, 37.832794189453125)),
             Rect(Coordinate(112.5583648681640625, 37.8321075439453125), Coordinate(112.559051513671875, 37.83245086669921875)),
             Rect(Coordinate(112.55870819091796875, 37.8321075439453125), Coordinate(112.559051513671875, 37.83245086669921875)),
             Rect(Coordinate(112.55870819091796875, 37.8321075439453125), Coordinate(112.559051513671875, 37.832279205322265625)));
    assert s[..10] == s;
  }

  lemma Cell_e71150dc9b(s: string)
    requires s == "e71150dc9b"
    ensures DecodeBboxSpec(s) == Success(Rect(Coordinate(112.55870819091796875, 37.832279205322265625), Coordinate(112.559051513671875, 37.83245086669921875)))
  {
    Cell_e71150dc9(s[..9]);
    CharStep(s, 9, 11,
             Rect(Coordinate(112.55767822265625, 37.8321075439453125), Coordinate(112.559051513671875, 37.832794189453125)),
             Rect(Coordinate(112.5583648681640625, 37.8321075439453125), Coordinate(112.559051513671875, 37.832794189453125)),
             Rect(Coordinate(112.5583648681640625, 37.8321075439453125), Coordinate(112.559051513671875, 37.83245086669921875)),
             Rect(Coordinate(112.55870819091796875, 37.8321075439453125), Coordinate(112.559051513671875, 37.83245086669921875)),
             Rect(Coordinate(112.55870819091796875, 37.832279205322265625), Coordinate(112.559051513671875, 37.83245086669921875)));
    assert s[..10] == s;
  }

  lemma Cell_e71150dc9c(s: string)
    requires s == "e71150dc9c"
    ensures DecodeBboxSpec(s) == Success(Rect(Coordinate(112.5583648681640625, 37.83245086669921875), Coordinate(112.55870819091796875, 37.832622528076171875)))
  {
    Cell_e71150dc9(s[..9]);
    CharStep(s, 9, 12,
             Rect(Coordinate(112.55767822265625, 37.8321075439453125), Coordinate(112.559051513671875, 37.832794189453125)),
             Rect(Coordinate(112.5583648681640625, 37.8321075439453125), Coordinate(112.559051513671875, 37.832794189453125)),
             Rect(Coordinate(112.5583648681640625, 37.83245086669921875), Coordinate(112.559051513671875, 37.832794189453125)),
             Rect(Coordinate(112.5583648681640625, 37.83245086669921875), Coordinate(112.55870819091796875, 37.832794189453125)),
             Rect(Coordinate(112.5583648681640625, 37.83245086669921875), Coordinate(112.55870819091796875, 37.832622528076171875)));
    assert s[..10] == s;
  }

  lemma Cell_e71150dc9e(s: string)
    requires s == "e71150dc9e"
    ensures DecodeBboxSpec(s) == Success(Rect(Coordinate(112.55870819091796875, 37.83245086669921875), Coordinate(112.559051513671875, 37.832622528076171875)))
  {
    Cell_e71150dc9(s[..9]);
    CharStep(s, 9, 14,
             Rect(Coordinate(112.55767822265625, 37.8321075439453125), Coordinate(112.559051513671875, 37.832794189453125)),
             Rect(Coordinate(112.5583648681640625, 37.8321075439453125), Coordinate(112.559051513671875, 37.832794189453125)),
             Rect(Coordinate(112.5583648681640625, 37.83245086669921875), Coordinate(112.559051513671875, 37.832794189453125)),
             Rect(Coordinate(112.55870819091796875, 37.83245086669921875), Coordinate(112.559051513671875, 37.832794189453125)),
             Rect(Coordinate(112.55870819091796875, 37.83245086669921875), Coordinate(112.559051513671875, 37.832622528076171875)));
    assert s[..10] == s;
  }

  lemma Cell_e7116(s: string)
    requires s == "e7116"
    ensures DecodeBboxSpec(s) == Success(Rect(Coordinate(112.8515625, 37.6171875), Coordinate(113.203125, 37.79296875)))
  {
    Cell_e711(s[..4]);
    CharStep(s, 4, 6,
             Rect(Coordinate(112.5, 37.265625), Coordinate(113.90625, 37.96875)),
             Rect(Coordinate(112.5, 37.265625), Coordinate(113.203125, 37.96875)),
             Rect(Coordinate(112.5, 37.6171875), Coordinate(113.203125, 37.96875)),
             Rect(Coordinate(112.8515625, 37.6171875), Coordinate(113.203125, 37.96875)),
             Rect(Coordinate(112.8515625, 37.6171875), Coordinate(113.203125, 37.79296875)));
    assert s[..5] == s;
  }

  lemma Cell_e7117(s: string)
    requires s == "e7117"
    ensures DecodeBboxSpec(s) == Success(Rect(Coordinate(112.8515625, 37.79296875), Coordinate(113.203125, 37.96875)))
  {
    Cell_e711(s[..4]);
    CharStep(s, 4, 7,
             Rect(Coordinate(112.5, 37.265625), Coordinate(113.90625, 37.96875)),
             Rect(Coordinate(112.5, 37.265625), Coordinate(113.203125, 37.96875)),
             Rect(Coordinate(112.5, 37.6171875), Coordinate(113.203125, 37.96875)),
             Rect(Coordinate(112.8515625, 37.6171875), Coordinate(113.203125, 37.96875)),
             Rect(Coordinate(112.8515625, 37.79296875), Coordinate(113.203125, 37.96875)));
    assert s[..5] == s;
  }

  lemma Cell_e714(s: string)
    requires s == "e714"
    ensures DecodeBboxSpec(s) == Success(Rect(Coordinate(112.5, 37.96875), Coordinate(113.90625, 38.671875)))
  {
    Cell_e71(s[..3]);
    CharStep(s, 3, 4,
             Rect(Coordinate(112.5, 36.5625), Coordinate(118.125, 39.375)),
             Rect(Coordinate(112.5, 36.5625), Coordinate(115.3125, 39.375)),
             Rect(Coordinate(112.5, 37.96875), Coordinate(115.3125, 39.375)),
             Rect(Coordinate(112.5, 37.96875), Coordinate(113.90625, 39.375)),
             Rect(Coordinate(112.5, 37.96875), Coordinate(113.90625, 38.671875)));
    assert s[..4] == s;
  }

  lemma Cell_e7140(s: string)
    requires s == "e7140"
    ensures DecodeBboxSpec(s) == Success(Rect(Coordinate(112.5, 37.96875), Coordinate(112.8515625, 38.14453125)))
  {
    Cell_e714(s[..4]);
    CharStep(s, 4, 0,
             Rect(Coordinate(112.5, 37.96875), Coordinate(113.90625, 38.671875)),
             Rect(Coordinate(112.5, 37.96875), Coordinate(113.203125, 38.671875)),
             Rect(Coordinate(112.5, 37.96875), Coordinate(113.203125, 38.3203125)),
             Rect(Coordinate(112.5, 37.96875), Coordinate(112.8515625, 38.3203125)),
             Rect(Coordinate(112.5, 37.96875), Coordinate(112.8515625, 38.14453125)));
    assert s[..5] == s;
  }

  lemma Cell_e7142(s: string)
    requires s == "e7142"
    ensures DecodeBboxSpec(s) == Success(Rect(Coordinate(112.8515625, 37.96875), Coordinate(113.203125, 38.14453125)))
  {
    Cell_e714(s[..4]);
    CharStep(s, 4, 2,
             Rect(Coordinate(112.5, 37.96875), Coordinate(113.90625, 38.671875)),
             Rect(Coordinate(112.5, 37.96875), Coordinate(113.203125, 38.671875)),
             Rect(Coordinate(112.5, 37.96875), Coordinate(113.203125, 38.3203125)),
             Rect(Coordinate(112.8515625, 37.96875), Coordinate(113.203125, 38.3203125)),
             Rect(Coordinate(112.8515625, 37.96875), Coordinate(113.203125, 38.14453125)));
    assert s[..5] == s;
  }

  // ---------------------------------------------------------------------------------
  // The neighbours of the example hashes

  lemma Neighbor_4d8c0f1817_SW(s: string, t: string)
    requires s == "4d8c0f1817" && t == "4d8c0f1814"
    ensures Neighbor(s, SW) == Success(t)
  {
    Cell_4d8c0f1817(s);
    Cell_4d8c0f1814(t);
    NeighborOfCells(s, SW, Rect(Coordinate(-120.66249847412109375, 35.300273895263671875), Coordinate(-120.6621551513671875, 35.300445556640625)),
                    t, Rect(Coordinate(-120.662841796875, 35.30010223388671875), Coordinate(-120.66249847412109375, 35.300273895263671875)));
  }

  lemma Neighbor_4d8c0f1817_S(s: string, t: string)
    requires s == "4d8c0f1817" && t == "4d8c0f1816"
    ensures Neighbor(s, S) == Success(t)
  {
    Cell_4d8c0f1817(s);
    Cell_4d8c0f1816(t);
    NeighborOfCells(s, S, Rect(Coordinate(-120.66249847412109375, 35.300273895263671875), Coordinate(-120.6621551513671875, 35.300445556640625)),
                    t, Rect(Coordinate(-120.66249847412109375, 35.30010223388671875), Coordinate(-120.6621551513671875, 35.300273895263671875)));
  }

  lemma Neighbor_4d8c0f1817_SE(s: string, t: string)
    requires s == "4d8c0f1817" && t == "4d8c0f181c"
    ensures Neighbor(s, SE) == Success(t)
  {
    Cell_4d8c0f1817(s);
    Cell_4d8c0f181c(t);
    NeighborOfCells(s, SE, Rect(Coordinate(-120.66249847412109375, 35.300273895263671875), Coordinate(-120.6621551513671875, 35.300445556640625)),
                    t, Rect(Coordinate(-120.6621551513671875, 35.30010223388671875), Coordinate(-120.66181182861328125, 35.300273895263671875)));
  }

  lemma Neighbor_4d8c0f1817_W(s: string, t: string)
    requires s == "4d8c0f1817" && t == "4d8c0f1815"
    ensures Neighbor(s, W) == Success(t)
  {
    Cell_4d8c0f1817(s);
    Cell_4d8c0f1815(t);
    NeighborOfCells(s, W, Rect(Coordinate(-120.66249847412109375, 35.300273895263671875), Coordinate(-120.6621551513671875, 35.300445556640625)),
                    t, Rect(Coordinate(-120.662841796875, 35.300273895263671875), Coordinate(-120.66249847412109375, 35.300445556640625)));
  }

  lemma Neighbor_4d8c0f1817_E(s: string, t: string)
    requires s == "4d8c0f1817" && t == "4d8c0f181d"
    ensures Neighbor(s, E) == Success(t)
  {
    Cell_4d8c0f1817(s);
    Cell_4d8c0f181d(t);
    NeighborOfCells(s, E, Rect(Coordinate(-120.66249847412109375, 35.300273895263671875), Coordinate(-120.6621551513671875, 35.300445556640625)),
                    t, Rect(Coordinate(-120.6621551513671875, 35.300273895263671875), Coordinate(-120.66181182861328125, 35.300445556640625)));
  }

  lemma Neighbor_4d8c0f1817_NW(s: string, t: string)
    requires s == "4d8c0f1817" && t == "4d8c0f1840"
    ensures Neighbor(s, NW) == Success(t)
  {
    Cell_4d8c0f1817(s);
    Cell_4d8c0f1840(t);
    NeighborOfCells(s, NW, Rect(Coordinate(-120.66249847412109375, 35.300273895263671875), Coordinate(-120.6621551513671875, 35.300445556640625)),
                    t, Rect(Coordinate(-120.662841796875, 35.300445556640625), Coordinate(-120.66249847412109375, 35.300617218017578125)));
  }

  lemma Neighbor_4d8c0f1817_N(s: string, t: string)
    requires s == "4d8c0f1817" && t == "4d8c0f1842"
    ensures Neighbor(s, N) == Success(t)
  {
    Cell_4d8c0f1817(s);
    Cell_4d8c0f1842(t);
    NeighborOfCells(s, N, Rect(Coordinate(-120.66249847412109375, 35.300273895263671875), Coordinate(-120.6621551513671875, 35.300445556640625)),
                    t, Rect(Coordinate(-120.66249847412109375, 35.300445556640625), Coordinate(-120.6621551513671875, 35.300617218017578125)));
  }

  lemma Neighbor_4d8c0f1817_NE(s: string, t: string)
    requires s == "4d8c0f1817" && t == "4d8c0f1848"
    ensures Neighbor(s, NE) == Success(t)
  {
    Cell_4d8c0f1817(s);
    Cell_4d8c0f1848(t);
    NeighborOfCells(s, NE, Rect(Coordinate(-120.66249847412109375, 35.300273895263671875), Coordinate(-120.6621551513671875, 35.300445556640625)),
                    t, Rect(Coordinate(-120.6621551513671875, 35.300445556640625), Coordinate(-120.66181182861328125, 35.300617218017578125)));
  }

  lemma Neighbor_e71150dc99_SW(s: string, t: string)
    requires s == "e71150dc99" && t == "e71150dc92"
    ensures Neighbor(s, SW) == Success(t)
  {
    Cell_e71150dc99(s);
    Cell_e71150dc92(t);
    NeighborOfCells(s, SW, Rect(Coordinate(112.5583648681640625, 37.832279205322265625), Coordinate(112.55870819091796875, 37.83245086669921875)),
                    t, Rect(Coordinate(112.55802154541015625, 37.8321075439453125), Coordinate(112.5583648681640625, 37.832279205322265625)));
  }

  lemma Neighbor_e71150dc99_S(s: string, t: string)
    requires s == "e71150dc99" && t == "e71150dc98"
    ensures Neighbor(s, S) == Success(t)
  {
    Cell_e71150dc99(s);
    Cell_e71150dc98(t);
    NeighborOfCells(s, S, Rect(Coordinate(112.5583648681640625, 37.832279205322265625), Coordinate(112.55870819091796875, 37.83245086669921875)),
                    t, Rect(Coordinate(112.5583648681640625, 37.8321075439453125), Coordinate(112.55870819091796875, 37.832279205322265625)));
  }

  lemma Neighbor_e71150dc99_SE(s: string, t: string)
    requires s == "e71150dc99" && t == "e71150dc9a"
    ensures Neighbor(s, SE) == Success(t)
  {
    Cell_e71150dc99(s);
    Cell_e71150dc9a(t);
    NeighborOfCells(s, SE, Rect(Coordinate(112.5583648681640625, 37.832279205322265625), Coordinate(112.55870819091796875, 37.83245086669921875)),
                    t, Rect(Coordinate(112.55870819091796875, 37.8321075439453125), Coordinate(112.559051513671875, 37.832279205322265625)));
  }

  lemma Neighbor_e71150dc99_W(s: string, t: string)
    requires s == "e71150dc99" && t == "e71150dc93"
    ensures Neighbor(s, W) == Success(t)
  {
    Cell_e71150dc99(s);
    Cell_e71150dc93(t);
    NeighborOfCells(s, W, Rect(Coordinate(112.5583648681640625, 37.832279205322265625), Coordinate(112.55870819091796875, 37.83245086669921875)),
                    t, Rect(Coordinate(112.55802154541015625, 37.832279205322265625), Coordinate(112.5583648681640625, 37.83245086669921875)));
  }

  lemma Neighbor_e71150dc99_E(s: string, t: string)
    requires s == "e71150dc99" && t == "e71150dc9b"
    ensures Neighbor(s, E) == Success(t)
  {
    Cell_e71150dc99(s);
    Cell_e71150dc9b(t);
    NeighborOfCells(s, E, Rect(Coordinate(112.5583648681640625, 37.832279205322265625), Coordinate(112.55870819091796875, 37.83245086669921875)),
                    t, Rect(Coordinate(112.55870819091796875, 37.832279205322265625), Coordinate(112.559051513671875, 37.83245086669921875)));
  }

  lemma Neighbor_e71150dc99_NW(s: string, t: string)
    requires s == "e71150dc99" && t == "e71150dc96"
    ensures Neighbor(s, NW) == Success(t)
  {
    Cell_e71150dc99(s);
    Cell_e71150dc96(t);
    NeighborOfCells(s, NW, Rect(Coordinate(112.5583648681640625, 37.832279205322265625), Coordinate(112.55870819091796875, 37.83245086669921875)),
                    t, Rect(Coordinate(112.55802154541015625, 37.83245086669921875), Coordinate(112.5583648681640625, 37.832622528076171875)));
  }

  lemma Neighbor_e71150dc99_N(s: string, t: string)
    requires s == "e71150dc99" && t == "e71150dc9c"
    ensures Neighbor(s, N) == Success(t)
  {
    Cell_e71150dc99(s);
    Cell_e71150dc9c(t);
    NeighborOfCells(s, N, Rect(Coordinate(112.5583648681640625, 37.832279205322265625), Coordinate(112.55870819091796875, 37.83245086669921875)),
                    t, Rect(Coordinate(112.5583648681640625, 37.83245086669921875), Coordinate(112.55870819091796875, 37.832622528076171875)));
  }

  lemma Neighbor_e71150dc99_NE(s: string, t: string)
    requires s == "e71150dc99" && t == "e71150dc9e"
    ensures Neighbor(s, NE) == Success(t)
  {
    Cell_e71150dc99(s);
    Cell_e71150dc9e(t);
    NeighborOfCells(s, NE, Rect(Coordinate(112.5583648681640625, 37.832279205322265625), Coordinate(112.55870819091796875, 37.83245086669921875)),
                    t, Rect(Coordinate(112.55870819091796875, 37.83245086669921875), Coordinate(112.559051513671875, 37.832622528076171875)));
  }

  lemma Neighbor_e7115_SW(s: string, t: string)
    requires s == "e7115" && t == "e5bbe"
    ensures Neighbor(s, SW) == Success(t)
  {
    Cell_e7115(s);
    Cell_e5bbe(t);
    NeighborOfCells(s, SW, Rect(Coordinate(112.5, 37.79296875), Coordinate(112.8515625, 37.96875)),
                    t, Rect(Coordinate(112.1484375, 37.6171875), Coordinate(112.5, 37.79296875)));
  }

  lemma Neighbor_e7115_S(s: string, t: string)
    requires s == "e7115" && t == "e7114"
    ensures Neighbor(s, S) == Success(t)
  {
    Cell_e7115(s);
    Cell_e7114(t);
    NeighborOfCells(s, S, Rect(Coordinate(112.5, 37.79296875), Coordinate(112.8515625, 37.96875)),
                    t, Rect(Coordinate(112.5, 37.6171875), Coordinate(112.8515625, 37.79296875)));
  }

  lemma Neighbor_e7115_SE(s: string, t: string)
    requires s == "e7115" && t == "e7116"
    ensures Neighbor(s, SE) == Success(t)
  {
    Cell_e7115(s);
    Cell_e7116(t);
    NeighborOfCells(s, SE, Rect(Coordinate(112.5, 37.79296875), Coordinate(112.8515625, 37.96875)),
                    t, Rect(Coordinate(112.8515625, 37.6171875), Coordinate(113.203125, 37.79296875)));
  }

  lemma Neighbor_e7115_W(s: string, t: string)
    requires s == "e7115" && t == "e5bbf"
    ensures Neighbor(s, W) == Success(t)
  {
    Cell_e7115(s);
    Cell_e5bbf(t);
    NeighborOfCells(s, W, Rect(Coordinate(112.5, 37.79296875), Coordinate(112.8515625, 37.96875)),
                    t, Rect(Coordinate(112.1484375, 37.79296875), Coordinate(112.5, 37.96875)));
  }

  lemma Neighbor_e7115_E(s: string, t: string)
    requires s == "e7115" && t == "e7117"
    ensures Neighbor(s, E) == Success(t)
  {
    Cell_e7115(s);
    Cell_e7117(t);
    NeighborOfCells(s, E, Rect(Coordinate(112.5, 37.79296875), Coordinate(112.8515625, 37.96875)),
                    t, Rect(Coordinate(112.8515625, 37.79296875), Coordinate(113.203125, 37.96875)));
  }

  lemma Neighbor_e7115_NW(s: string, t: string)
    requires s == "e7115" && t == "e5bea"
    ensures Neighbor(s, NW) == Success(t)
  {
    Cell_e7115(s);
    Cell_e5bea(t);
    NeighborOfCells(s, NW, Rect(Coordinate(112.5, 37.79296875), Coordinate(112.8515625, 37.96875)),
                    t, Rect(Coordinate(112.1484375, 37.96875), Coordinate(112.5, 38.14453125)));
  }

  lemma Neighbor_e7115_N(s: string, t: string)
    requires s == "e7115" && t == "e7140"
    ensures Neighbor(s, N) == Success(t)
  {
    Cell_e7115(s);
    Cell_e7140(t);
    NeighborOfCells(s, N, Rect(Coordinate(112.5, 37.79296875), Coordinate(112.8515625, 37.96875)),
                    t, Rect(Coordinate(112.5, 37.96875), Coordinate(112.8515625, 38.14453125)));
  }

  lemma Neighbor_e7115_NE(s: string, t: string)
    requires s == "e7115" && t == "e7142"
    ensures Neighbor(s, NE) == Success(t)
  {
    Cell_e7115(s);
    Cell_e7142(t);
    NeighborOfCells(s, NE, Rect(Coordinate(112.5, 37.79296875), Coordinate(112.8515625, 37.96875)),
                    t, Rect(Coordinate(112.8515625, 37.96875), Coordinate(113.203125, 38.14453125)));
  }
}
