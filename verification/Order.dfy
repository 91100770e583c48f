/**
 The one ordering that the sources rely on everywhere: Python's comparison of
 integers, strings and tuples. Strings and tuples are both compared element by
 element with a proper prefix first, so a single order on nested lists covers
 JSON member names, instants and command rule keys.
 */
module Order {

  datatype Key = Num(n: int) | Nil | Cons(head: Key, tail: Key)

  predicate Less(a: Key, b: Key) {
    match (a, b)
    case (Num(m), Num(n)) => m < n
    case (Num(_), _) => true
    case (Nil, Cons(_, _)) => true
    case (Cons(h, t), Cons(h', t')) => Less(h, h') || (h == h' && Less(t, t'))
    case _ => false
  }

  lemma {:induction false} LessIrreflexive(a: Key)
    ensures !Less(a, a)
  {
    match a
    case Cons(h, t) => LessIrreflexive(h); LessIrreflexive(t);
    case _ =>
  }

  lemma {:induction false} LessTotal(a: Key, b: Key)
    ensures Less(a, b) || a == b || Less(b, a)
  {
    match (a, b)
    case (Cons(h, t), Cons(h', t')) => LessTotal(h, h'); LessTotal(t, t');
    case _ =>
  }

  lemma {:induction false} LessTransitive(a: Key, b: Key, c: Key)
    requires Less(a, b) && Less(b, c)
    ensures Less(a, c)
  {
    match (a, b, c)
    case (Cons(h, t), Cons(h', t'), Cons(h'', t'')) =>
      if Less(h, h') && Less(h', h'') {
        LessTransitive(h, h', h'');
      } else if h == h' && h' == h'' {
        LessTransitive(t, t', t'');
      }
    case _ =>
  }

  lemma LessAsymmetric(a: Key, b: Key)
    requires Less(a, b)
    ensures !Less(b, a) && a != b
  {
    if Less(b, a) {
      LessTransitive(a, b, a);
    }
    LessIrreflexive(a);
  }

  function Text(s: string): Key {
    if s == "" then Nil else Cons(Num(s[0] as int), Text(s[1..]))
  }

  function Texts(ss: seq<string>): Key {
    if ss == [] then Nil else Cons(Text(ss[0]), Texts(ss[1..]))
  }

  lemma {:induction false} TextInjective(s: string, t: string)
    requires Text(s) == Text(t)
    ensures s == t
  {
    if s != "" && t != "" {
      TextInjective(s[1..], t[1..]);
      assert s == [s[0]] + s[1..] && t == [t[0]] + t[1..];
    }
  }

  lemma {:induction false} TextsInjective(ss: seq<string>, ts: seq<string>)
    requires Texts(ss) == Texts(ts)
    ensures ss == ts
  {
    if ss != [] && ts != [] {
      TextInjective(ss[0], ts[0]);
      TextsInjective(ss[1..], ts[1..]);
      assert ss == [ss[0]] + ss[1..] && ts == [ts[0]] + ts[1..];
    }
  }

  /** Strings are ordered by the first position at which they differ. */
  lemma {:induction false} TextLessAt(s: string, t: string, i: nat)
    requires i < |t| && i <= |s| && s[..i] == t[..i]
    requires i < |s| ==> s[i] < t[i]
    ensures Less(Text(s), Text(t))
  {
    if i > 0 {
      assert s[0] == s[..i][0] == t[..i][0] == t[0];
      assert s[1..][..i - 1] == s[..i][1..] && t[1..][..i - 1] == t[..i][1..];
      TextLessAt(s[1..], t[1..], i - 1);
    }
  }

  ghost predicate StrictlySorted<T>(xs: seq<T>, key: T -> Key) {
    forall i, j | 0 <= i < j < |xs| :: Less(key(xs[i]), key(xs[j]))
  }

  /** Sortedness of neighbours is sortedness of all pairs. */
  lemma {:induction false} SortedFromNeighbours<T>(xs: seq<T>, key: T -> Key)
    requires forall i | 0 <= i < |xs| - 1 :: Less(key(xs[i]), key(xs[i + 1]))
    ensures StrictlySorted(xs, key)
  {
    if |xs| > 1 {
      var n := |xs| - 1;
      SortedFromNeighbours(xs[..n], key);
      forall i, j | 0 <= i < j < |xs| ensures Less(key(xs[i]), key(xs[j])) {
        if j < n {
          assert xs[..n][i] == xs[i] && xs[..n][j] == xs[j];
        } else if i < n - 1 {
          assert xs[..n][i] == xs[i] && xs[..n][n - 1] == xs[n - 1];
          LessTransitive(key(xs[i]), key(xs[n - 1]), key(xs[n]));
        }
      }
    }
  }

  /** Two strings agree before a position, and the first is lower there. */
  predicate LowerAt(s: string, t: string, at: nat) {
    && at < |s| && at < |t| && s[at] < t[at]
    && forall k | 0 <= k < at :: s[k] == t[k]
  }

  lemma LowerIsLess(s: string, t: string, at: nat)
    requires LowerAt(s, t, at)
    ensures Less(Text(s), Text(t))
  {
    assert s[..at] == t[..at];
    TextLessAt(s, t, at);
  }

  /** Strings are sorted when each is below the next at the given position, and equal before it. */
  lemma SortedByFirstDifference(names: seq<string>, positions: seq<nat>)
    requires |positions| + 1 == |names|
    requires forall i | 0 <= i < |positions| :: LowerAt(names[i], names[i + 1], positions[i])
    ensures StrictlySorted(names, Text)
  {
    forall i | 0 <= i < |positions| ensures Less(Text(names[i]), Text(names[i + 1])) {
      LowerIsLess(names[i], names[i + 1], positions[i]);
    }
    SortedFromNeighbours(names, Text);
  }

  /** A strictly sorted sequence is determined by the set of its elements. */
  lemma {:induction false} SortedIsUnique<T>(xs: seq<T>, ys: seq<T>, key: T -> Key)
    requires StrictlySorted(xs, key) && StrictlySorted(ys, key)
    requires forall x :: x in xs <==> x in ys
    ensures xs == ys
  {
    assert (xs == [] || xs[0] in xs) && (ys == [] || ys[0] in ys);
    if xs != [] {
      if xs[0] != ys[0] {
        var i :| 0 < i < |ys| && ys[i] == xs[0];
        assert ys[0] in ys && ys[0] in xs;
        var j :| 0 < j < |xs| && xs[j] == ys[0];
        LessAsymmetric(key(xs[0]), key(ys[0]));
        assert false;
      }
      HeadIsNotInTail(xs, key);
      HeadIsNotInTail(ys, key);
      forall x ensures x in xs[1..] <==> x in ys[1..] {
        assert xs == [xs[0]] + xs[1..] && ys == [ys[0]] + ys[1..];
        assert x in xs <==> x == xs[0] || x in xs[1..];
        assert x in ys <==> x == ys[0] || x in ys[1..];
      }
      SortedIsUnique(xs[1..], ys[1..], key);
      assert xs == [xs[0]] + xs[1..] && ys == [ys[0]] + ys[1..];
    }
  }

  lemma HeadIsNotInTail<T>(xs: seq<T>, key: T -> Key)
    requires xs != [] && StrictlySorted(xs, key)
    ensures xs[0] !in xs[1..]
  {
    LessIrreflexive(key(xs[0]));
  }

  // ------------------------------------------------------ `sorted` and `set`

  function Insert(k: Key, ks: seq<Key>): seq<Key> {
    if ks == [] || !Less(ks[0], k) then [k] + ks else [ks[0]] + Insert(k, ks[1..])
  }

  /** `sorted(keys)`. */
  function Sorted(ks: seq<Key>): seq<Key> {
    if ks == [] then [] else Insert(ks[0], Sorted(ks[1..]))
  }

  /** `set(keys)`. */
  function Elements(ks: seq<Key>): set<Key> {
    set k <- ks
  }

  /** The check that the sources write as `keys == tuple(sorted(keys)) and len(keys) == len(set(keys))`. */
  ghost predicate UniqueAndSorted(ks: seq<Key>) {
    ks == Sorted(ks) && |ks| == |Elements(ks)|
  }

  ghost predicate Ascends(ks: seq<Key>) {
    forall i | 0 <= i < |ks| - 1 :: !Less(ks[i + 1], ks[i])
  }

  lemma {:induction false} InsertAscends(k: Key, ks: seq<Key>)
    requires Ascends(ks)
    ensures Ascends(Insert(k, ks))
    ensures Insert(k, ks)[0] == if ks == [] || !Less(ks[0], k) then k else ks[0]
  {
    if ks != [] && Less(ks[0], k) {
      assert forall j | 0 <= j < |ks| - 1 :: ks[1..][j] == ks[j + 1];
      InsertAscends(k, ks[1..]);
      var rest := Insert(k, ks[1..]);
      LessAsymmetric(ks[0], k);
      assert !Less(rest[0], ks[0]);
    }
  }

  lemma {:induction false} SortedAscends(ks: seq<Key>)
    ensures Ascends(Sorted(ks))
  {
    if ks != [] {
      SortedAscends(ks[1..]);
      InsertAscends(ks[0], Sorted(ks[1..]));
    }
  }

  ghost predicate AllDistinct(ks: seq<Key>) {
    forall i, j | 0 <= i < j < |ks| :: ks[i] != ks[j]
  }

  lemma DistinctCons(k: Key, ks: seq<Key>)
    ensures AllDistinct([k] + ks) <==> k !in ks && AllDistinct(ks)
  {
    var all := [k] + ks;
    assert all[1..] == ks;
    if AllDistinct(all) {
      forall i, j | 0 <= i < j < |ks| ensures ks[i] != ks[j] {
        assert all[i + 1] != all[j + 1];
      }
      forall j | 0 <= j < |ks| ensures ks[j] != k {
        assert all[0] != all[j + 1];
      }
    }
  }

  lemma {:induction false} DistinctCount(ks: seq<Key>)
    ensures |Elements(ks)| <= |ks|
    ensures |Elements(ks)| == |ks| <==> AllDistinct(ks)
  {
    if ks != [] {
      var tail := Elements(ks[1..]);
      DistinctCount(ks[1..]);
      assert ks == [ks[0]] + ks[1..];
      DistinctCons(ks[0], ks[1..]);
      assert Elements(ks) == {ks[0]} + tail;
      if ks[0] in tail {
        assert {ks[0]} + tail == tail;
      }
    }
  }

  lemma {:induction false} SortedKeepsSorted(ks: seq<Key>)
    requires forall i | 0 <= i < |ks| - 1 :: Less(ks[i], ks[i + 1])
    ensures Sorted(ks) == ks
  {
    if ks != [] {
      assert forall j | 0 <= j < |ks| - 1 :: ks[1..][j] == ks[j + 1];
      SortedKeepsSorted(ks[1..]);
      if |ks| > 1 {
        LessAsymmetric(ks[0], ks[1]);
      }
      assert ks == [ks[0]] + ks[1..];
    }
  }

  /** Being equal to its own sorting with no repetition is being strictly sorted. */
  lemma UniqueAndSortedExact(ks: seq<Key>)
    ensures UniqueAndSorted(ks) <==> forall i, j | 0 <= i < j < |ks| :: Less(ks[i], ks[j])
  {
    DistinctCount(ks);
    if UniqueAndSorted(ks) {
      SortedAscends(ks);
      forall i | 0 <= i < |ks| - 1 ensures Less(ks[i], ks[i + 1]) {
        LessTotal(ks[i], ks[i + 1]);
      }
      SortedFromNeighbours(ks, (k: Key) => k);
    }
    if forall i, j | 0 <= i < j < |ks| :: Less(ks[i], ks[j]) {
      SortedKeepsSorted(ks);
      forall i, j | 0 <= i < j < |ks| ensures ks[i] != ks[j] {
        LessAsymmetric(ks[i], ks[j]);
      }
    }
  }

  function KeysOf<T>(xs: seq<T>, key: T -> Key): seq<Key> {
    seq(|xs|, i requires 0 <= i < |xs| => key(xs[i]))
  }

  /** The same for values that are compared by a key. */
  lemma SortedByKeyExact<T>(xs: seq<T>, key: T -> Key)
    ensures UniqueAndSorted(KeysOf(xs, key)) <==> StrictlySorted(xs, key)
  {
    var ks := KeysOf(xs, key);
    UniqueAndSortedExact(ks);
    if StrictlySorted(xs, key) {
      forall i, j | 0 <= i < j < |ks| ensures Less(ks[i], ks[j]) {
        assert Less(key(xs[i]), key(xs[j]));
      }
    }
    if forall i, j | 0 <= i < j < |ks| :: Less(ks[i], ks[j]) {
      forall i, j | 0 <= i < j < |xs| ensures Less(key(xs[i]), key(xs[j])) {
        assert Less(ks[i], ks[j]);
      }
    }
  }
}
