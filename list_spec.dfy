/**
 * What each operation of the doubly linked list does to the sequence of values it holds,
 * written as functions on `seq<T>`, with the properties of those functions.
 *
 * These follow the list's code as written: insert and delete act on the position AFTER
 * the requested one when the index is in the middle, and the two indices at which the
 * code dereferences an absent successor fail with AttributeError.
 */
module ListSpec {
  import opened Outcomes

  /** `list[item]`: integers in [0, len) only. */
  function Get<T>(s: seq<T>, item: IndexArg): (r: Result<T>)
    ensures r.Ok? <==> item.Int? && 0 <= item.value < |s|
    ensures r.Ok? ==> r.value == s[item.value]
    ensures r.Err? ==> r.error == if item.NotInt? then TypeError else IndexError
  {
    match item
    case NotInt => Err(TypeError)
    case Int(i) => if i >= |s| || i < 0 then Err(IndexError) else Ok(s[i])
  }

  /** `list[key] = v`: integers in [0, len) only. */
  function Set<T>(s: seq<T>, key: IndexArg, v: T): (r: Result<seq<T>>)
    ensures r.Ok? <==> key.Int? && 0 <= key.value < |s|
    ensures r.Ok? ==> (|r.value| == |s| && r.value[key.value] == v &&
      forall j :: 0 <= j < |s| && j != key.value ==> r.value[j] == s[j])
    ensures r.Err? ==> r.error == if key.NotInt? then TypeError else IndexError
  {
    match key
    case NotInt => Err(TypeError)
    case Int(i) => if i >= |s| || i < 0 then Err(IndexError) else Ok(s[i := v])
  }

  /** `list.append(v)`: never fails. */
  function Append<T>(s: seq<T>, v: T): (r: seq<T>)
    ensures |r| == |s| + 1 && r[|s|] == v && r[..|s|] == s
  {
    s + [v]
  }

  /** The position where a successful `insert(v, i)` on a list of length `n` puts `v`. */
  function InsertedAt(n: nat, i: int): (p: int)
    ensures 0 <= i <= n ==> 0 <= p <= n
  {
    if i == 0 then 0 else if i == n then n else i + 1
  }

  /**
   * `list.insert(v, index)`: integers in [0, len] only. Index 0 prepends, index len appends,
   * any other index splices `v` in after the element at `index`; when that element is the
   * last one (index len - 1, len >= 2) its successor is absent and the splice fails.
   */
  function Insert<T>(s: seq<T>, v: T, index: IndexArg): (r: Result<seq<T>>)
    ensures index.NotInt? ==> r == Err(TypeError)
    ensures index.Int? && !(0 <= index.value <= |s|) ==> r == Err(IndexError)
    ensures r.Ok? ==> |r.value| == |s| + 1 && r.value[InsertedAt(|s|, index.value)] == v
  {
    match index
    case NotInt => Err(TypeError)
    case Int(i) =>
      if i < 0 || i > |s| then Err(IndexError)
      else if i == 0 then Ok([v] + s)
      else if i == |s| then Ok(s + [v])
      else if i + 1 == |s| then Err(AttributeError)
      else Ok(s[..i + 1] + [v] + s[i + 1..])
  }

  /** The position whose element a successful `delete(i)` on a list of length `n` removes. */
  function RemovedAt(n: nat, i: int): (p: int)
    ensures 0 <= i < n ==> 0 <= p <= n
  {
    if i == 0 then 0 else if i == n - 1 then n - 1 else i + 1
  }

  /**
   * `list.delete(index)`: integers in [0, len) only. Index 0 drops the first element,
   * index len - 1 the last, any other index the element after the one at `index`; when that
   * element is the last one (index len - 2, len >= 3) the relinking fails.
   */
  function Delete<T>(s: seq<T>, index: IndexArg): (r: Result<seq<T>>)
    ensures index.NotInt? ==> r == Err(TypeError)
    ensures index.Int? && !(0 <= index.value < |s|) ==> r == Err(IndexError)
    ensures r.Ok? ==> |r.value| == |s| - 1
  {
    match index
    case NotInt => Err(TypeError)
    case Int(i) =>
      if i < 0 || i >= |s| then Err(IndexError)
      else if i == 0 then Ok(s[1..])
      else if i == |s| - 1 then Ok(s[..|s| - 1])
      else if i + 2 == |s| then Err(AttributeError)
      else Ok(s[..i + 1] + s[i + 2..])
  }

  /** The smallest position holding `x`. */
  function FirstIndex<T(==)>(s: seq<T>, x: T): (k: nat)
    requires x in s
    ensures k < |s| && s[k] == x
    ensures forall j :: 0 <= j < k ==> s[j] != x
  {
    if s[0] == x then 0 else 1 + FirstIndex(s[1..], x)
  }

  /** The largest position holding `x`. */
  function LastIndex<T(==)>(s: seq<T>, x: T): (k: nat)
    requires x in s
    ensures k < |s| && s[k] == x
    ensures forall j :: k < j < |s| ==> s[j] != x
  {
    if s[|s| - 1] == x then |s| - 1 else LastIndex(s[..|s| - 1], x)
  }

  /**
   * `list.index(x, start)`. Searching from the right on a non-empty list without `x` walks
   * past the first node by calling its absent back link, which raises TypeError.
   */
  function IndexOf<T(==)>(s: seq<T>, x: T, start: string): (r: Result<nat>)
    ensures r.Ok? <==> (start == "left" || start == "right") && x in s
    ensures r.Ok? ==> r.value < |s| && s[r.value] == x
    ensures r == Err(TypeError) <==> start == "right" && x !in s && s != []
  {
    if start == "left" then
      if x in s then Ok(FirstIndex(s, x)) else Err(IndexError)
    else if start == "right" then
      if x in s then Ok(LastIndex(s, x))
      else if s == [] then Err(IndexError)
      else Err(TypeError)
    else Err(ValueError)
  }

  // ---------------------------------------------------------------------------------------
  // Index validation

  /**
   * A non-integer index raises TypeError and an index out of bounds raises IndexError. This
   * collects in one place the rejection clauses of `Get`, `Set`, `Insert` and `Delete`.
   */
  lemma RejectedIndices<T>(s: seq<T>, v: T, i: int)
    ensures Get(s, NotInt) == Err(TypeError) && Set(s, NotInt, v) == Err(TypeError)
    ensures Insert(s, v, NotInt) == Err(TypeError) && Delete(s, NotInt) == Err(TypeError)
    ensures !(0 <= i < |s|) ==>
      Get(s, Int(i)) == Err(IndexError) && Set(s, Int(i), v) == Err(IndexError) &&
      Delete(s, Int(i)) == Err(IndexError)
    ensures !(0 <= i <= |s|) ==> Insert(s, v, Int(i)) == Err(IndexError)
  {
  }

  /** Deleting from an empty list fails on the range check, whatever the index. */
  lemma DeleteFromEmpty<T>(s: seq<T>, i: int)
    requires s == []
    ensures Delete(s, Int(i)) == Err(IndexError)
  {
  }

  // ---------------------------------------------------------------------------------------
  // Write then read

  /** After `list[k] = v`, `list[k]` is `v`; the length and every other position are unchanged. */
  lemma SetThenGet<T>(s: seq<T>, k: int, v: T)
    requires 0 <= k < |s|
    ensures Set(s, Int(k), v).Ok?
    ensures var t := Set(s, Int(k), v).value;
      |t| == |s| && Get(t, Int(k)) == Ok(v) &&
      forall j :: 0 <= j < |s| && j != k ==> Get(t, Int(j)) == Get(s, Int(j))
  {
  }

  // ---------------------------------------------------------------------------------------
  // Append and insert

  /**
   * Append adds exactly one element, `v`, at position len, after the unchanged old elements.
   * This restates `Append`'s contract through `Get`, the list's read operation.
   */
  lemma AppendAddsLast<T>(s: seq<T>, v: T)
    ensures |Append(s, v)| == |s| + 1
    ensures Get(Append(s, v), Int(|s|)) == Ok(v)
    ensures Append(s, v)[..|s|] == s
  {
  }

  /** `insert(v, 0)` makes `v` the first element and shifts the others one place. */
  lemma InsertAtFront<T>(s: seq<T>, v: T)
    ensures Insert(s, v, Int(0)).Ok?
    ensures var t := Insert(s, v, Int(0)).value;
      |t| == |s| + 1 && t[0] == v && t[1..] == s
  {
  }

  /** `insert(v, len)` is `append(v)`, on the empty list too. */
  lemma InsertAtLengthIsAppend<T>(s: seq<T>, v: T)
    ensures Insert(s, v, Int(|s|)) == Ok(Append(s, v))
  {
    if s == [] {
      assert [v] + s == s + [v];
    }
  }

  /** For 1 <= i <= len - 2, `insert(v, i)` puts `v` at position i + 1, not i. */
  lemma InsertInMiddleLandsAfter<T>(s: seq<T>, v: T, i: int)
    requires 1 <= i <= |s| - 2
    ensures Insert(s, v, Int(i)).Ok?
    ensures var t := Insert(s, v, Int(i)).value;
      |t| == |s| + 1 && t[i + 1] == v && t[..i + 1] == s[..i + 1] && t[i + 2..] == s[i + 1..]
  {
    var t := Insert(s, v, Int(i)).value;
    assert t[..i + 1] == s[..i + 1];
    assert t[i + 2..] == s[i + 1..];
  }

  /** `insert(v, len - 1)` on a list of two or more elements fails on the absent successor. */
  lemma InsertBeforeLastFails<T>(s: seq<T>, v: T)
    requires |s| >= 2
    ensures Insert(s, v, Int(|s| - 1)) == Err(AttributeError)
  {
  }

  /**
   * Exactly the indices 0, len and 1..len-2 succeed, and a successful insert puts `v` at
   * `InsertedAt` with the old elements, in order, around it.
   */
  lemma InsertShape<T>(s: seq<T>, v: T, i: int)
    ensures Insert(s, v, Int(i)).Ok? <==> 0 <= i <= |s| && (i == 0 || i == |s| || i + 2 <= |s|)
    ensures Insert(s, v, Int(i)).Ok? ==>
      var p := InsertedAt(|s|, i);
      0 <= p <= |s| && Insert(s, v, Int(i)).value == s[..p] + [v] + s[p..]
  {
    if Insert(s, v, Int(i)).Ok? {
      var p := InsertedAt(|s|, i);
      if i == 0 {
        assert s[..p] == [];
      } else if i == |s| {
        assert s[p..] == [];
      }
    }
  }

  /** A successful insert adds `v` and keeps every old element: as multisets, s + {v}. */
  lemma InsertKeepsElements<T>(s: seq<T>, v: T, i: int)
    requires Insert(s, v, Int(i)).Ok?
    ensures multiset(Insert(s, v, Int(i)).value) == multiset(s) + multiset{v}
  {
    InsertShape(s, v, i);
    var p := InsertedAt(|s|, i);
    assert s == s[..p] + s[p..];
  }

  // ---------------------------------------------------------------------------------------
  // Delete

  /** `delete(0)` drops the first element; on a one-element list this leaves it empty. */
  lemma DeleteAtFront<T>(s: seq<T>)
    requires |s| >= 1
    ensures Delete(s, Int(0)) == Ok(s[1..])
    ensures |s| == 1 ==> Delete(s, Int(0)) == Ok([])
  {
    if |s| == 1 {
      assert s[1..] == [];
    }
  }

  /** `delete(len - 1)` drops the last element. */
  lemma DeleteAtEnd<T>(s: seq<T>)
    requires |s| >= 1
    ensures Delete(s, Int(|s| - 1)) == Ok(s[..|s| - 1])
  {
    if |s| == 1 {
      assert s[1..] == s[..0];
    }
  }

  /** For 1 <= i <= len - 3, `delete(i)` removes the element at i + 1, not at i. */
  lemma DeleteInMiddleRemovesNext<T>(s: seq<T>, i: int)
    requires 1 <= i <= |s| - 3
    ensures Delete(s, Int(i)).Ok?
    ensures var t := Delete(s, Int(i)).value;
      |t| == |s| - 1 && t[..i + 1] == s[..i + 1] && t[i + 1..] == s[i + 2..]
  {
    var t := Delete(s, Int(i)).value;
    assert t[..i + 1] == s[..i + 1];
    assert t[i + 1..] == s[i + 2..];
  }

  /** `delete(len - 2)` on a list of three or more elements fails on the absent successor. */
  lemma DeleteBeforeLastFails<T>(s: seq<T>)
    requires |s| >= 3
    ensures Delete(s, Int(|s| - 2)) == Err(AttributeError)
  {
  }

  /** Exactly the indices 0, len - 1 and 1..len-3 succeed. */
  lemma DeleteSucceeds<T>(s: seq<T>, i: int)
    ensures Delete(s, Int(i)).Ok? <==>
      0 <= i < |s| && (i == 0 || i == |s| - 1 || i + 3 <= |s|)
  {
  }

  /**
   * A successful delete removes the one element at `RemovedAt` and keeps the others, in
   * order: as multisets, what is left plus the removed element is the old list.
   */
  lemma DeleteShape<T>(s: seq<T>, i: int)
    requires Delete(s, Int(i)).Ok?
    ensures var p := RemovedAt(|s|, i);
      0 <= p < |s| && Delete(s, Int(i)).value == s[..p] + s[p + 1..] &&
      multiset(Delete(s, Int(i)).value) + multiset{s[p]} == multiset(s)
  {
    var p := RemovedAt(|s|, i);
    var t := Delete(s, Int(i)).value;
    if i == 0 {
      assert t == s[..p] + s[p + 1..] by { assert s[..p] == []; }
    } else if i == |s| - 1 {
      assert t == s[..p] + s[p + 1..] by { assert s[p + 1..] == []; }
    } else {
      assert t == s[..p] + s[p + 1..];
    }
    RemoveOneKeepsRest(s, p);
  }

  /** Cutting out position `p` leaves every element but that one. */
  lemma RemoveOneKeepsRest<T>(s: seq<T>, p: nat)
    requires p < |s|
    ensures multiset(s[..p] + s[p + 1..]) + multiset{s[p]} == multiset(s)
  {
    assert s == s[..p] + [s[p]] + s[p + 1..];
  }

  /** Deleting at the index just used for a successful insert removes the inserted value. */
  lemma DeleteUndoesInsert<T>(s: seq<T>, v: T, i: int)
    requires Insert(s, v, Int(i)).Ok?
    ensures Delete(Insert(s, v, Int(i)).value, Int(i)) == Ok(s)
  {
    var t := Insert(s, v, Int(i)).value;
    InsertShape(s, v, i);
    DeleteSucceeds(t, i);
    DeleteShape(t, i);
    var p := InsertedAt(|s|, i);
    assert RemovedAt(|t|, i) == p;
    assert t[..p] == s[..p];
    assert t[p + 1..] == s[p..];
    assert s == s[..p] + s[p..];
  }

  // ---------------------------------------------------------------------------------------
  // Value search

  /** Two different positions holding `x` make `x` occur at least twice. */
  lemma {:induction false} TwoPositionsCountTwice<T>(s: seq<T>, x: T, k: nat, m: nat)
    requires k < m < |s| && s[k] == x && s[m] == x
    ensures multiset(s)[x] >= 2
  {
    assert s == s[..k] + [x] + s[k + 1..m] + [x] + s[m + 1..];
  }

  /** On a value that occurs exactly once, searching from the left and from the right agree. */
  lemma SearchDirectionsAgreeOnUnique<T>(s: seq<T>, x: T)
    requires multiset(s)[x] == 1
    ensures IndexOf(s, x, "left").Ok?
    ensures IndexOf(s, x, "left") == IndexOf(s, x, "right")
  {
    assert x in multiset(s);
    var k, m := FirstIndex(s, x), LastIndex(s, x);
    if k < m {
      TwoPositionsCountTwice(s, x, k, m);
    }
  }

  /** A search that finds nothing raises IndexError, except from the right on a non-empty list. */
  lemma SearchMisses<T>(s: seq<T>, x: T, start: string)
    requires x !in s
    ensures start == "left" ==> IndexOf(s, x, start) == Err(IndexError)
    ensures start == "right" ==>
      IndexOf(s, x, start) == if s == [] then Err(IndexError) else Err(TypeError)
    ensures start != "left" && start != "right" ==> IndexOf(s, x, start) == Err(ValueError)
  {
  }
}
