/** The quantiser-step table, the search for the QP nearest to a step, and the QP moves built on them. */
module QpTable {
  import opened Numeric

  // ----- the table -----

  const TABLE_SIZE := 88

  /** `MFX_QSTEP`, eight entries to a row. */
  function QstepRow(row: int): (r: seq<real>)
    ensures |r| == 8
  {
    match row
    case 0 => [0.630, 0.707, 0.794, 0.891, 1.000, 1.122, 1.260, 1.414]
    case 1 => [1.587, 1.782, 2.000, 2.245, 2.520, 2.828, 3.175, 3.564]
    case 2 => [4.000, 4.490, 5.040, 5.657, 6.350, 7.127, 8.000, 8.980]
    case 3 => [10.079, 11.314, 12.699, 14.254, 16.000, 17.959, 20.159, 22.627]
    case 4 => [25.398, 28.509, 32.000, 35.919, 40.317, 45.255, 50.797, 57.018]
    case 5 => [64.000, 71.838, 80.635, 90.510, 101.594, 114.035, 128.000, 143.675]
    case 6 => [161.270, 181.019, 203.187, 228.070, 256.000, 287.350, 322.540, 362.039]
    case 7 => [406.375, 456.140, 512.000, 574.701, 645.080, 724.077, 812.749, 912.280]
    case 8 => [1024.000, 1149.401, 1290.159, 1448.155, 1625.499, 1824.561, 2048.000, 2298.802]
    case 9 => [2580.318, 2896.309, 3250.997, 3649.121, 4096.000, 4597.605, 5160.637, 5792.619]
    case _ => [6501.995, 7298.242, 8192.000, 9195.209, 10321.273, 11585.238, 13003.989, 14596.485]
  }

  function Qstep(i: int): real
    requires 0 <= i < TABLE_SIZE
  {
    QstepRow(i / 8)[i % 8]
  }

  lemma RowIncreases(row: int, k: int)
    requires 0 <= row < 11 && 0 <= k < 7
    ensures 0.0 < QstepRow(row)[k] < QstepRow(row)[k + 1]
  {
  }

  lemma RowsIncrease(row: int)
    requires 0 <= row < 10
    ensures 0.0 < QstepRow(row)[7] < QstepRow(row + 1)[0]
  {
  }

  lemma NeighboursIncrease(i: int)
    requires 0 <= i < TABLE_SIZE - 1
    ensures 0.0 < Qstep(i) < Qstep(i + 1)
  {
    hide QstepRow;
    if i % 8 < 7 {
      RowIncreases(i / 8, i % 8);
    } else {
      RowsIncrease(i / 8);
    }
  }

  lemma {:induction false} TableIncreases(i: int, j: int)
    requires 0 <= i <= j < TABLE_SIZE
    ensures i < j ==> Qstep(i) < Qstep(j)
    decreases j - i
  {
    hide Qstep;
    if i < j {
      NeighboursIncrease(j - 1);
      TableIncreases(i, j - 1);
    }
  }

  /** Six entries on the step doubles, as the standards define it, to within the rounding of the table. */
  lemma SixEntriesDouble(i: int)
    requires 0 <= i < TABLE_SIZE - 6
    ensures -0.001 <= Qstep(i + 6) - 2.0 * Qstep(i) <= 0.001
  {
    hide QstepRow;
    if i % 8 < 2 {
      SixInRow(i / 8, i % 8);
    } else {
      SixAcrossRows(i / 8, i % 8);
    }
  }

  /** The scale: entry 4 is the step 1, and the entries around it grow evenly, to within the rounding of the table. */
  lemma EntryFourIsOne(i: int)
    requires 0 < i <= 6
    ensures Qstep(4) == 1.0
    ensures -0.0015 <= Qstep(i) * Qstep(i) - Qstep(i - 1) * Qstep(i + 1) <= 0.0015
  {
    assert QstepRow(0) == [0.630, 0.707, 0.794, 0.891, 1.000, 1.122, 1.260, 1.414];
    assert Qstep(i) == QstepRow(0)[i] && Qstep(i - 1) == QstepRow(0)[i - 1] && Qstep(i + 1) == QstepRow(0)[i + 1];
  }

  lemma SixInRow(row: int, k: int)
    requires 0 <= row < 11 && 0 <= k < 2
    ensures -0.001 <= QstepRow(row)[k + 6] - 2.0 * QstepRow(row)[k] <= 0.001
  {
  }

  lemma SixAcrossRows(row: int, k: int)
    requires 0 <= row < 10 && 2 <= k < 8
    ensures -0.001 <= QstepRow(row + 1)[k - 2] - 2.0 * QstepRow(row)[k] <= 0.001
  {
  }

  // ----- the search -----

  /** `std::upper_bound` over entries `from` to `end`: the first one greater than `qstep`. */
  function UpperBound(qstep: real, from: int, end: int): (r: int)
    requires 0 <= from <= end <= TABLE_SIZE
    ensures from <= r <= end
    decreases end - from
  {
    if from < end && Qstep(from) <= qstep then UpperBound(qstep, from + 1, end) else from
  }

  lemma {:induction false} UpperBoundMeaning(qstep: real, from: int, end: int)
    requires 0 <= from <= end <= TABLE_SIZE
    ensures var r := UpperBound(qstep, from, end);
            && (r < end ==> qstep < Qstep(r))
            && (r > from ==> Qstep(r - 1) <= qstep)
    decreases end - from
  {
    hide Qstep;
    if from < end && Qstep(from) <= qstep {
      UpperBoundMeaning(qstep, from + 1, end);
    }
  }

  /** Offsets the controller uses: six QPs per bit of luma depth above eight, up to 14 bits. */
  predicate IsOffset(offset: int) { 0 <= offset <= 36 }

  /** The floor search covers all but the last usable entry. */
  function QStep2QpFloor(qstep: real, offset: int): int
    requires IsOffset(offset)
  {
    var qp := UpperBound(qstep, 0, 51 + offset);
    if qp > 0 then qp - 1 else 0
  }

  function Qstep2QP(qstep: real, offset: int): int
    requires IsOffset(offset)
  {
    var qp := QStep2QpFloor(qstep, offset);
    if qp >= TABLE_SIZE - 1 then 0
    else if qp == 51 + offset || qstep < (Qstep(qp) + Qstep(qp + 1)) / 2.0 then qp
    else qp + 1
  }

  function QP2Qstep(qp: int, offset: int): real
    requires IsOffset(offset) && 0 <= qp
  {
    Qstep(MinInt(51 + offset, qp))
  }

  // ----- what the search finds -----

  /** Entry `r` is the one whose interval between neighbouring midpoints contains `qstep`. */
  ghost predicate InCell(qstep: real, r: int, last: int)
    requires last < TABLE_SIZE
  {
    && 0 <= r <= last
    && (r > 0 ==> (Qstep(r - 1) + Qstep(r)) / 2.0 <= qstep)
    && (r < last ==> qstep < (Qstep(r) + Qstep(r + 1)) / 2.0)
  }

  lemma CellsAreDisjoint(qstep: real, r1: int, r2: int, last: int)
    requires last < TABLE_SIZE
    requires InCell(qstep, r1, last) && InCell(qstep, r2, last)
    ensures r1 == r2
  {
    hide Qstep;
    if r1 < r2 {
      TableIncreases(r1, r2 - 1);
      TableIncreases(r1 + 1, r2);
    } else if r2 < r1 {
      TableIncreases(r2, r1 - 1);
      TableIncreases(r2 + 1, r1);
    }
  }

  /** The search result, characterised completely: `r` is returned exactly when `qstep` is in its cell. */
  lemma SearchFindsTheCell(qstep: real, offset: int, r: int)
    requires IsOffset(offset)
    ensures Qstep2QP(qstep, offset) == r <==> InCell(qstep, r, 51 + offset)
  {
    hide Qstep;
    var last := 51 + offset;
    var floor := QStep2QpFloor(qstep, offset);
    UpperBoundMeaning(qstep, 0, last);
    NeighboursIncrease(floor);
    if floor > 0 {
      NeighboursIncrease(floor - 1);
    }
    if floor + 2 <= last {
      NeighboursIncrease(floor + 1);
    }
    assert InCell(qstep, Qstep2QP(qstep, offset), last);
    if InCell(qstep, r, last) {
      CellsAreDisjoint(qstep, r, Qstep2QP(qstep, offset), last);
    }
  }

  function Distance(a: real, b: real): real { if a < b then b - a else a - b }

  /** No usable entry is nearer than the one returned, and the index never leaves the table. */
  lemma SearchFindsNearest(qstep: real, offset: int, j: int)
    requires IsOffset(offset) && 0 <= j <= 51 + offset
    ensures 0 <= Qstep2QP(qstep, offset) <= 51 + offset < TABLE_SIZE
    ensures Distance(qstep, Qstep(Qstep2QP(qstep, offset))) <= Distance(qstep, Qstep(j))
  {
    hide Qstep;
    var r := Qstep2QP(qstep, offset);
    SearchFindsTheCell(qstep, offset, r);
    if j < r {
      TableIncreases(j, r - 1);
      TableIncreases(r - 1, r);
    } else if r < j {
      TableIncreases(r + 1, j);
      TableIncreases(r, r + 1);
    }
  }

  lemma SearchIsMonotone(q1: real, q2: real, offset: int)
    requires IsOffset(offset) && q1 <= q2
    ensures Qstep2QP(q1, offset) <= Qstep2QP(q2, offset)
  {
    hide Qstep;
    var r1, r2 := Qstep2QP(q1, offset), Qstep2QP(q2, offset);
    SearchFindsTheCell(q1, offset, r1);
    SearchFindsTheCell(q2, offset, r2);
    if r2 < r1 {
      TableIncreases(r2, r1 - 1);
      TableIncreases(r2 + 1, r1);
    }
  }

  /** Searching for the step of a QP finds that QP, or the last usable one for a QP beyond it. */
  lemma SearchInvertsTable(qp: int, offset: int)
    requires IsOffset(offset) && 0 <= qp
    ensures Qstep2QP(QP2Qstep(qp, offset), offset) == MinInt(51 + offset, qp)
  {
    hide Qstep;
    var r := MinInt(51 + offset, qp);
    if r > 0 { NeighboursIncrease(r - 1); }
    if r < 51 + offset { NeighboursIncrease(r); }
    SearchFindsTheCell(Qstep(r), offset, r);
  }
}
