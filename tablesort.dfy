/** `sortTable`: the rider table is sorted on one column by repeatedly
    swapping the first adjacent pair of body rows that is out of order; when
    a first ascending pass finds nothing to swap, the direction flips to
    descending. Row 0 is the header and never moves. */
module TableSort {
  import opened Strings

  /** The value compared for a cell: a number for the numeric columns, the
      lower-cased text for the others. */
  datatype CellKey = Number(value: real) | Label(text: string)

  /** `parseFloat(x.innerHTML)` for columns 3, 4 and 5, and
      `x.innerHTML.toLowerCase()` for every other column. */
  function ColumnKey(columnIndex: int, text: string, parseFloat: string -> real): (k: CellKey)
    ensures k.Number? <==> columnIndex == 3 || columnIndex == 4 || columnIndex == 5
    ensures k.Number? ==> k.value == parseFloat(text)
    ensures k.Label? ==> |k.text| == |text| && forall i :: 0 <= i < |text| ==> k.text[i] == LowerChar(text[i])
  {
    if columnIndex == 3 || columnIndex == 4 || columnIndex == 5 then Number(parseFloat(text))
    else Label(Lower(text))
  }

  /** `a < b` on two keys. The keys of one column are all of one kind;
      numbers are put before labels only so that the order is total. */
  predicate CellLess(a: CellKey, b: CellKey)
  {
    match a
    case Number(x) => b.Label? || x < b.value
    case Label(s) => b.Label? && Less(s, b.text)
  }

  lemma CellLessIrreflexive(a: CellKey)
    ensures !CellLess(a, a)
  {
    if a.Label? {
      LessIrreflexive(a.text);
    }
  }

  lemma CellLessTransitive(a: CellKey, b: CellKey, c: CellKey)
    requires CellLess(a, b) && CellLess(b, c)
    ensures CellLess(a, c)
  {
    if a.Label? {
      LessTransitive(a.text, b.text, c.text);
    }
  }

  /** Any two keys are equal or ordered one way or the other. */
  lemma CellLessTotal(a: CellKey, b: CellKey)
    ensures a == b || CellLess(a, b) || CellLess(b, a)
  {
    if a.Label? && b.Label? {
      LessTrichotomy(a.text, b.text);
    }
  }

  /** "Not greater" is transitive too. */
  lemma NotLessTransitive(a: CellKey, b: CellKey, c: CellKey)
    requires !CellLess(b, a) && !CellLess(c, b)
    ensures !CellLess(c, a)
  {
    if CellLess(c, a) {
      CellLessTotal(a, b);
      if CellLess(a, b) {
        CellLessTransitive(c, a, b);
      }
    }
  }

  datatype Direction = Asc | Desc

  /** The test that makes `sortTable` swap a row with the next one:
      `x > y` ascending, `x < y` descending. */
  predicate OutOfOrder(x: CellKey, y: CellKey, dir: Direction)
  {
    if dir == Asc then CellLess(y, x) else CellLess(x, y)
  }

  lemma OutOfOrderAsymmetric(x: CellKey, y: CellKey, dir: Direction)
    requires OutOfOrder(x, y, dir)
    ensures !OutOfOrder(y, x, dir)
  {
    if OutOfOrder(y, x, dir) {
      CellLessTransitive(x, y, x);
      CellLessIrreflexive(x);
    }
  }

  lemma InOrderTransitive(x: CellKey, y: CellKey, z: CellKey, dir: Direction)
    requires !OutOfOrder(x, y, dir) && !OutOfOrder(y, z, dir)
    ensures !OutOfOrder(x, z, dir)
  {
    if dir == Asc {
      NotLessTransitive(x, y, z);
    } else {
      NotLessTransitive(z, y, x);
    }
  }

  /** No body row is out of order with the next. */
  ghost predicate AdjacentInOrder<T>(s: seq<T>, key: T -> CellKey, dir: Direction)
  {
    forall i :: 1 <= i < |s| - 1 ==> !OutOfOrder(key(s[i]), key(s[i + 1]), dir)
  }

  /** No body row is out of order with any later one: the body is
      non-decreasing (ascending) or non-increasing (descending). */
  ghost predicate InOrder<T>(s: seq<T>, key: T -> CellKey, dir: Direction)
  {
    forall i, j :: 1 <= i < j < |s| ==> !OutOfOrder(key(s[i]), key(s[j]), dir)
  }

  /** A body with no adjacent pair out of order is in order. */
  lemma AdjacentInOrderIsInOrder<T>(s: seq<T>, key: T -> CellKey, dir: Direction)
    requires AdjacentInOrder(s, key, dir)
    ensures InOrder(s, key, dir)
  {
    forall i, j | 1 <= i < j < |s| ensures !OutOfOrder(key(s[i]), key(s[j]), dir) {
      InOrderFrom(s, key, dir, i, j);
    }
  }

  lemma {:induction false} InOrderFrom<T>(s: seq<T>, key: T -> CellKey, dir: Direction, i: int, j: int)
    requires AdjacentInOrder(s, key, dir)
    requires 1 <= i < j < |s|
    ensures !OutOfOrder(key(s[i]), key(s[j]), dir)
    decreases j - i
  {
    if i + 1 < j {
      InOrderFrom(s, key, dir, i + 1, j);
      InOrderTransitive(key(s[i]), key(s[i + 1]), key(s[j]), dir);
    }
  }

  /** The rows after the header. */
  function Body<T>(s: seq<T>): seq<T>
  {
    if |s| == 0 then [] else s[1..]
  }

  /** `s` with the elements at `k` and `k + 1` exchanged. */
  function Swap<T>(s: seq<T>, k: int): (r: seq<T>)
    requires 0 <= k < |s| - 1
    ensures |r| == |s|
  {
    s[k := s[k + 1]][k + 1 := s[k]]
  }

  /** The number of later elements that `x` is out of order with. */
  function CountOut<T>(x: T, t: seq<T>, key: T -> CellKey, dir: Direction): nat
  {
    if |t| == 0 then 0
    else (if OutOfOrder(key(x), key(t[0]), dir) then 1 else 0) + CountOut(x, t[1..], key, dir)
  }

  /** The number of pairs out of order. */
  function Inversions<T>(s: seq<T>, key: T -> CellKey, dir: Direction): nat
  {
    if |s| == 0 then 0 else CountOut(s[0], s[1..], key, dir) + Inversions(s[1..], key, dir)
  }

  lemma {:induction false} CountOutSwap<T>(x: T, t: seq<T>, k: int, key: T -> CellKey, dir: Direction)
    requires 0 <= k < |t| - 1
    ensures CountOut(x, Swap(t, k), key, dir) == CountOut(x, t, key, dir)
  {
    var u := Swap(t, k);
    if k == 0 {
      assert u[1..][1..] == t[1..][1..];
    } else {
      assert u[1..] == Swap(t[1..], k - 1);
      CountOutSwap(x, t[1..], k - 1, key, dir);
    }
  }

  /** Swapping an adjacent pair that is out of order removes exactly that
      one inversion. */
  lemma {:induction false} SwapInversions<T>(s: seq<T>, k: int, key: T -> CellKey, dir: Direction)
    requires 0 <= k < |s| - 1
    requires OutOfOrder(key(s[k]), key(s[k + 1]), dir)
    ensures Inversions(Swap(s, k), key, dir) + 1 == Inversions(s, key, dir)
  {
    var u := Swap(s, k);
    if k == 0 {
      OutOfOrderAsymmetric(key(s[0]), key(s[1]), dir);
      var a, b, t := s[0], s[1], s[2..];
      assert s[1..] == [b] + t && s[1..][1..] == t;
      assert u[1..] == [a] + t && u[1..][1..] == t;
    } else {
      assert u[0] == s[0];
      assert u[1..] == Swap(s[1..], k - 1);
      SwapInversions(s[1..], k - 1, key, dir);
      CountOutSwap(s[0], s[1..], k - 1, key, dir);
    }
  }

  /** The inner `for` loop of `sortTable`: the first body row that is out
      of order with the next, if any. `shouldSwitch` keeps its previous value
      when the loop body never runs. */
  method FindOutOfOrder<T>(rows: array<T>, key: T -> CellKey, dir: Direction, previous: bool)
    returns (i: int, shouldSwitch: bool)
    requires previous ==> rows.Length > 2
    ensures shouldSwitch ==> 1 <= i < rows.Length - 1 && OutOfOrder(key(rows[i]), key(rows[i + 1]), dir)
    ensures shouldSwitch ==> forall j :: 1 <= j < i ==> !OutOfOrder(key(rows[j]), key(rows[j + 1]), dir)
    ensures !shouldSwitch ==> AdjacentInOrder(rows[..], key, dir)
  {
    shouldSwitch := previous;
    i := 1;
    while i < rows.Length - 1
      invariant 1 <= i
      invariant i == 1 || i <= rows.Length - 1
      invariant shouldSwitch ==> i == 1 && rows.Length > 2
      invariant forall j :: 1 <= j < i && j + 1 < rows.Length ==> !OutOfOrder(key(rows[j]), key(rows[j + 1]), dir)
    {
      shouldSwitch := false;
      if OutOfOrder(key(rows[i]), key(rows[i + 1]), dir) {
        shouldSwitch := true;
        break;
      }
      i := i + 1;
    }
  }

  /** `insertBefore(rows[i + 1], rows[i])` on a pair that is out of order:
      one pair fewer is out of order, and nothing else changes. */
  method SwapNext<T>(rows: array<T>, i: int, key: T -> CellKey, dir: Direction)
    requires 1 <= i < rows.Length - 1
    requires OutOfOrder(key(rows[i]), key(rows[i + 1]), dir)
    modifies rows
    ensures rows[..] == Swap(old(rows[..]), i)
    ensures rows[0] == old(rows[0])
    ensures multiset(rows[..]) == multiset(old(rows[..]))
    ensures Inversions(Body(rows[..]), key, dir) + 1 == Inversions(Body(old(rows[..])), key, dir)
  {
    ghost var before := rows[..];
    rows[i], rows[i + 1] := rows[i + 1], rows[i];
    assert rows[..] == Swap(before, i);
    assert Body(rows[..]) == Swap(Body(before), i - 1);
    SwapInversions(Body(before), i - 1, key, dir);
  }

  /** The loops of `sortTable` on the table's rows, with `key` giving the
      compared value of a row. A body that is out of order ends ascending; a
      body that is already ascending is flipped to descending. The header row
      stays in place and the rows are only rearranged. */
  method SortRows<T>(rows: array<T>, key: T -> CellKey)
    modifies rows
    ensures rows.Length > 0 ==> rows[0] == old(rows[0])
    ensures multiset(rows[..]) == multiset(old(rows[..]))
    ensures !InOrder(old(rows[..]), key, Asc) ==> InOrder(rows[..], key, Asc)
    ensures InOrder(old(rows[..]), key, Asc) ==> InOrder(rows[..], key, Desc)
  {
    var switching, dir, switchcount := true, Asc, 0;
    var shouldSwitch := false;
    while switching
      invariant rows.Length > 0 ==> rows[0] == old(rows[0])
      invariant multiset(rows[..]) == multiset(old(rows[..]))
      invariant switchcount == 0 ==> rows[..] == old(rows[..])
      invariant shouldSwitch ==> rows.Length > 2
      invariant dir == Desc ==> AdjacentInOrder(old(rows[..]), key, Asc)
      invariant dir == Asc && switchcount > 0 ==> !AdjacentInOrder(old(rows[..]), key, Asc)
      invariant !switching ==> AdjacentInOrder(rows[..], key, dir) && (dir == Desc || switchcount > 0)
      decreases if dir == Asc then 1 else 0, Inversions(Body(rows[..]), key, dir), if switching then 1 else 0
    {
      switching := false;
      var i;
      i, shouldSwitch := FindOutOfOrder(rows, key, dir, shouldSwitch);
      if shouldSwitch {
        SwapNext(rows, i, key, dir);
        switching := true;
        switchcount := switchcount + 1;
      } else {
        if switchcount == 0 && dir == Asc {
          dir := Desc;
          switching := true;
        }
      }
    }
    AdjacentInOrderIsInOrder(rows[..], key, dir);
    if dir == Desc {
      AdjacentInOrderIsInOrder(old(rows[..]), key, Asc);
    }
  }

  /** The key of a row when sorting on column `columnIndex`, with `cellText`
      reading the text of that column's cell of a row. */
  function ColumnOf<T>(columnIndex: int, cellText: T -> string, parseFloat: string -> real): T -> CellKey
  {
    r => ColumnKey(columnIndex, cellText(r), parseFloat)
  }

  /** How two cells of one column compare: by `parseFloat` in the numeric
      columns, by their lower-cased text in the others. */
  lemma ColumnKeyOrder(columnIndex: int, a: string, b: string, parseFloat: string -> real)
    ensures columnIndex in {3, 4, 5} ==>
      (CellLess(ColumnKey(columnIndex, a, parseFloat), ColumnKey(columnIndex, b, parseFloat)) <==> parseFloat(a) < parseFloat(b))
    ensures columnIndex !in {3, 4, 5} ==>
      (CellLess(ColumnKey(columnIndex, a, parseFloat), ColumnKey(columnIndex, b, parseFloat)) <==> Less(Lower(a), Lower(b)))
  {
  }

  /** A body in order on a column, spelled out on its cells: numeric cells
      non-decreasing (ascending) or non-increasing (descending); text cells
      never followed by a lexicographically smaller lower-cased text
      (ascending) or a greater one (descending). */
  lemma {:induction false} ColumnInOrder<T>(s: seq<T>, columnIndex: int, cellText: T -> string, parseFloat: string -> real, dir: Direction)
    requires InOrder(s, ColumnOf(columnIndex, cellText, parseFloat), dir)
    ensures columnIndex in {3, 4, 5} ==> forall i, j :: 1 <= i < j < |s| ==>
      if dir == Asc then parseFloat(cellText(s[i])) <= parseFloat(cellText(s[j]))
      else parseFloat(cellText(s[j])) <= parseFloat(cellText(s[i]))
    ensures columnIndex !in {3, 4, 5} ==> forall i, j :: 1 <= i < j < |s| ==>
      if dir == Asc then !Less(Lower(cellText(s[j])), Lower(cellText(s[i])))
      else !Less(Lower(cellText(s[i])), Lower(cellText(s[j])))
  {
    var key := ColumnOf(columnIndex, cellText, parseFloat);
    forall i, j | 1 <= i < j < |s|
      ensures columnIndex in {3, 4, 5} ==>
        if dir == Asc then parseFloat(cellText(s[i])) <= parseFloat(cellText(s[j]))
        else parseFloat(cellText(s[j])) <= parseFloat(cellText(s[i]))
      ensures columnIndex !in {3, 4, 5} ==>
        if dir == Asc then !Less(Lower(cellText(s[j])), Lower(cellText(s[i])))
        else !Less(Lower(cellText(s[i])), Lower(cellText(s[j])))
    {
      assert !OutOfOrder(key(s[i]), key(s[j]), dir);
      ColumnKeyOrder(columnIndex, cellText(s[i]), cellText(s[j]), parseFloat);
      ColumnKeyOrder(columnIndex, cellText(s[j]), cellText(s[i]), parseFloat);
    }
  }

  /** `sortTable(columnIndex)`: the table's rows sorted on one column, the
      cells compared as `ColumnKey` says. */
  method SortTable<T>(rows: array<T>, columnIndex: int, cellText: T -> string, parseFloat: string -> real)
    modifies rows
    ensures rows.Length > 0 ==> rows[0] == old(rows[0])
    ensures multiset(rows[..]) == multiset(old(rows[..]))
    ensures !InOrder(old(rows[..]), ColumnOf(columnIndex, cellText, parseFloat), Asc) ==>
      InOrder(rows[..], ColumnOf(columnIndex, cellText, parseFloat), Asc)
    ensures InOrder(old(rows[..]), ColumnOf(columnIndex, cellText, parseFloat), Asc) ==>
      InOrder(rows[..], ColumnOf(columnIndex, cellText, parseFloat), Desc)
  {
    SortRows(rows, ColumnOf(columnIndex, cellText, parseFloat));
  }
}
