/**
 * The cell-identifier codec of the snake board (src/utils.ts): a coordinate
 * is addressed by the string "<row>-<col>", and an identifier is read back by
 * splitting it on '-' and reading each piece as a number.
 *
 * `idToCoord` casts its result to a pair without checking it, so the model
 * returns the whole list of numbers; it is a pair exactly when the
 * identifier holds one '-', which is the case for every coordinate on the
 * board and for no coordinate with a negative component.
 */
module Utils {
  import opened Math
  import opened JsText

  /** The source's `coordToId`: the template string `${row}-${col}`. It holds
      one '-' per negative component beside the separator, and for a
      coordinate without negative components it splits back into the two
      numerals. */
  function CoordToId(c: Coord2D): (id: string)
    ensures Count(id, '-') == 1 + (if c.row < 0 then 1 else 0) + (if c.col < 0 then 1 else 0)
    ensures c.row >= 0 && c.col >= 0 ==> Split(id, '-') == [NatToDecimal(c.row), NatToDecimal(c.col)]
  {
    IdTextFacts(c.row, c.col);
    IntToDecimal(c.row) + "-" + IntToDecimal(c.col)
  }

  /** How many '-' the text `${row}-${col}` holds and how it splits. */
  lemma {:induction false} IdTextFacts(row: int, col: int)
    ensures var id := IntToDecimal(row) + "-" + IntToDecimal(col);
            Count(id, '-') == 1 + (if row < 0 then 1 else 0) + (if col < 0 then 1 else 0)
    ensures row >= 0 && col >= 0 ==>
            Split(IntToDecimal(row) + "-" + IntToDecimal(col), '-') == [NatToDecimal(row), NatToDecimal(col)]
  {
    var r, c := IntToDecimal(row), IntToDecimal(col);
    CountIntToDecimal(row);
    CountIntToDecimal(col);
    CountAppend(r, "-", '-');
    CountAppend(r + "-", c, '-');
    if row >= 0 && col >= 0 {
      NoSeparatorInNatToDecimal(row);
      NoSeparatorInNatToDecimal(col);
      SplitOfJoin([r, c], '-');
      assert Join([r, c], '-') == r + "-" + c;
    }
  }

  /** The source's `idToCoord`: `id.split("-").map(Number)`, one number per
      piece and so one more than there are '-' in `id`. A piece never holds
      a '-', so no component reads as a negative number. */
  function IdToCoord(id: string): (r: seq<JsNumber>)
    ensures |r| == Count(id, '-') + 1
    ensures forall i :: 0 <= i < |r| && r[i].Num? ==> r[i].value >= 0
  {
    var parts := Split(id, '-');
    seq(|parts|, i requires 0 <= i < |parts| => ParseNumber(parts[i]))
  }

  lemma {:induction false} NoSeparatorInNatToDecimal(n: nat)
    ensures '-' !in NatToDecimal(n)
  {
    var s := NatToDecimal(n);
    assert forall i :: 0 <= i < |s| ==> IsDigit(s[i]);
  }

  lemma {:induction false} CountIntToDecimal(n: int)
    ensures Count(IntToDecimal(n), '-') == if n < 0 then 1 else 0
  {
    if n < 0 {
      NoSeparatorInNatToDecimal(-n);
      CountAbsent(NatToDecimal(-n), '-');
      CountAppend("-", NatToDecimal(-n), '-');
    } else {
      NoSeparatorInNatToDecimal(n);
      CountAbsent(NatToDecimal(n), '-');
    }
  }

  /** The round trip `idToCoord(coordToId(c))` gives back `[row, col]`
      exactly when neither component is negative; a negative component adds
      a '-' and so an extra piece. */
  lemma {:induction false} IdToCoordOfCoordToId(c: Coord2D)
    ensures IdToCoord(CoordToId(c)) == [Num(c.row), Num(c.col)] <==> c.row >= 0 && c.col >= 0
  {
    var id := CoordToId(c);
    if c.row >= 0 && c.col >= 0 {
      ParseNumberOfNatToDecimal(c.row);
      ParseNumberOfNatToDecimal(c.col);
      var parts := Split(id, '-');
      assert parts == [NatToDecimal(c.row), NatToDecimal(c.col)];
      assert IdToCoord(id)[0] == ParseNumber(parts[0]);
      assert IdToCoord(id)[1] == ParseNumber(parts[1]);
    } else {
      assert |IdToCoord(id)| > 2;
    }
  }

  /** `coordToId` never gives two coordinates without negative components
      the same identifier. */
  lemma {:induction false} CoordToIdInjective(c1: Coord2D, c2: Coord2D)
    requires c1.row >= 0 && c1.col >= 0 && c2.row >= 0 && c2.col >= 0
    ensures CoordToId(c1) == CoordToId(c2) <==> c1 == c2
  {
    if CoordToId(c1) == CoordToId(c2) {
      IdToCoordOfCoordToId(c1);
      IdToCoordOfCoordToId(c2);
      assert [Num(c1.row), Num(c1.col)] == [Num(c2.row), Num(c2.col)];
    }
  }

  /** Why the round trip needs non-negative components: the id of `(-1, 2)`
      is "-1-2", which splits into three pieces, the first empty (and
      `Number("")` is 0). */
  lemma {:induction false} NegativeRowIdHasThreePieces()
    ensures CoordToId(Coord2D(-1, 2)) == "-1-2"
    ensures Split("-1-2", '-') == ["", "1", "2"]
    ensures IdToCoord("-1-2") == [Num(0), Num(1), Num(2)]
  {
    assert NatToDecimal(1) == "1" && NatToDecimal(2) == "2";
    SplitWithoutSeparator("2", '-');
    SplitAfterPiece("1", "2", '-');
    assert "1" + ['-'] + "2" == "1-2";
    SplitAfterPiece("", "1-2", '-');
    assert "" + ['-'] + "1-2" == "-1-2";
    assert DecimalToNat("1") == 1 && DecimalToNat("2") == 2;
  }

  /** `idToCoord` raises no error on an identifier `coordToId` never writes:
      "-5" and "5-" read as clean pairs through `Number("") == 0`, and "07-5"
      reads as the pair that `coordToId` writes as "7-5". */
  lemma {:induction false} MalformedIdsReadAsPairs()
    ensures IdToCoord("-5") == [Num(0), Num(5)]
    ensures IdToCoord("5-") == [Num(5), Num(0)]
    ensures IdToCoord("07-5") == [Num(7), Num(5)]
    ensures CoordToId(Coord2D(7, 5)) == "7-5" != "07-5"
  {
    SplitWithoutSeparator("5", '-');
    SplitWithoutSeparator("", '-');
    SplitAfterPiece("", "5", '-');
    assert "" + ['-'] + "5" == "-5";
    SplitAfterPiece("5", "", '-');
    assert "5" + ['-'] + "" == "5-";
    SplitAfterPiece("07", "5", '-');
    assert "07" + ['-'] + "5" == "07-5";
    assert DecimalToNat("5") == 5;
    assert DecimalToNat("07") == 7 by {
      assert "07"[..1] == "0";
    }
    assert NatToDecimal(7) == "7" && NatToDecimal(5) == "5";
  }

  /** An identifier as `coordToId` writes it for a coordinate on the board:
      two canonical numerals joined by a single '-'. */
  predicate CanonicalId(id: string) {
    var parts := Split(id, '-');
    |parts| == 2 && CanonicalDecimal(parts[0]) && CanonicalDecimal(parts[1])
  }

  /** Every canonical identifier reads as a pair of numbers that `coordToId`
      writes back as the same identifier. */
  lemma {:induction false} CoordToIdOfIdToCoord(id: string)
    requires CanonicalId(id)
    ensures |IdToCoord(id)| == 2 && IdToCoord(id)[0].Num? && IdToCoord(id)[1].Num?
    ensures CoordToId(Coord2D(IdToCoord(id)[0].value, IdToCoord(id)[1].value)) == id
  {
    var parts := Split(id, '-');
    var r := IdToCoord(id);
    assert r[0] == ParseNumber(parts[0]) && r[1] == ParseNumber(parts[1]);
    NatToDecimalOfDecimalToNat(parts[0]);
    NatToDecimalOfDecimalToNat(parts[1]);
    JoinOfSplit(id, '-');
    assert Join(parts, '-') == parts[0] + "-" + parts[1];
  }

  /** Conversely, every coordinate without negative components has a
      canonical identifier; together with `CoordToIdOfIdToCoord` this makes
      `coordToId` a bijection onto canonical identifiers. */
  lemma {:induction false} CoordToIdIsCanonical(c: Coord2D)
    requires c.row >= 0 && c.col >= 0
    ensures CanonicalId(CoordToId(c))
  {
  }

  /** Every cell a wrap-around move can reach round-trips through the
      identifier codec. */
  lemma {:induction false} ToroidAddIdRoundTrip(a: Coord2D, b: Coord2D, rows: int, cols: int)
    requires rows > 0 && cols > 0
    ensures var p := ToroidAdd(a, b, rows, cols);
            IdToCoord(CoordToId(p)) == [Num(p.row), Num(p.col)]
  {
    IdToCoordOfCoordToId(ToroidAdd(a, b, rows, cols));
  }
}
