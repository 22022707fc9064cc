/** The second stage of `filteredUsers`: the comparator on `sortField` and `sortOrder`, and
    the sort it drives. `Array.prototype.sort` is stable, so with this comparator its result
    is determined; the model computes it with a stable insertion sort. */
module Sorting {
  import opened Text
  import opened Seqs
  import opened Users

  /** The field `sortField` names, restricted to the fields of `User` modelled here. */
  datatype Field = Id | FirstName | LastName | Email

  /** The value of `sortOrder`. */
  datatype Order = Asc | Desc

  /** JavaScript `<` between the values of field `f` of two records: numeric on ids,
      lexicographic on strings. */
  predicate KeyLess(a: User, b: User, f: Field)
    ensures KeyLess(a, b, f) ==> !SameKey(a, b, f)
  {
    match f
    case Id => a.id < b.id
    case FirstName => StrLess(a.firstName, b.firstName)
    case LastName => StrLess(a.lastName, b.lastName)
    case Email => StrLess(a.email, b.email)
  }

  /** The two records hold the same value in field `f`. */
  predicate SameKey(a: User, b: User, f: Field) {
    match f
    case Id => a.id == b.id
    case FirstName => a.firstName == b.firstName
    case LastName => a.lastName == b.lastName
    case Email => a.email == b.email
  }

  /** On the values of one field `<` is a strict total order: two values are equal exactly
      when neither is less than the other, and never is each less than the other. */
  lemma KeyTrichotomy(a: User, b: User, f: Field)
    ensures SameKey(a, b, f) <==> !KeyLess(a, b, f) && !KeyLess(b, a, f)
    ensures !(KeyLess(a, b, f) && KeyLess(b, a, f))
  {
    match f
    case Id =>
    case FirstName => StrLessTrichotomy(a.firstName, b.firstName);
    case LastName => StrLessTrichotomy(a.lastName, b.lastName);
    case Email => StrLessTrichotomy(a.email, b.email);
  }

  /** `<` on the values of one field is transitive. */
  lemma KeyLessTransitive(a: User, b: User, c: User, f: Field)
    requires KeyLess(a, b, f) && KeyLess(b, c, f)
    ensures KeyLess(a, c, f)
  {
    match f
    case Id =>
    case FirstName => StrLessTransitive(a.firstName, b.firstName, c.firstName);
    case LastName => StrLessTransitive(a.lastName, b.lastName, c.lastName);
    case Email => StrLessTransitive(a.email, b.email, c.email);
  }

  /** The comparator handed to `sort`: negative when `a` goes first, positive when `b` goes
      first, zero on equal values. Ascending puts the smaller value first, descending the
      larger. */
  function Compare(a: User, b: User, f: Field, o: Order): (c: int)
    ensures -1 <= c <= 1
    ensures c == 0 <==> SameKey(a, b, f)
    ensures c < 0 <==> if o == Asc then KeyLess(a, b, f) else KeyLess(b, a, f)
  {
    KeyTrichotomy(a, b, f);
    if KeyLess(a, b, f) then (if o == Asc then -1 else 1)
    else if KeyLess(b, a, f) then (if o == Asc then 1 else -1)
    else 0
  }

  /** `a` may stand before `b` in the sorted output. */
  predicate Precedes(a: User, b: User, f: Field, o: Order) {
    Compare(a, b, f, o) <= 0
  }

  /** `a` may stand before `b` exactly when its value is not past `b`'s in the chosen
      direction. */
  lemma PrecedesIff(a: User, b: User, f: Field, o: Order)
    ensures Precedes(a, b, f, o) <==> if o == Asc then !KeyLess(b, a, f) else !KeyLess(a, b, f)
  {
    KeyTrichotomy(a, b, f);
  }

  /** Of any two records, one may stand before the other. */
  lemma PrecedesTotal(a: User, b: User, f: Field, o: Order)
    ensures Precedes(a, b, f, o) || Precedes(b, a, f, o)
  {
    PrecedesIff(a, b, f, o);
    PrecedesIff(b, a, f, o);
    KeyTrichotomy(a, b, f);
  }

  /** The order the comparator induces is transitive. */
  lemma PrecedesTransitive(a: User, b: User, c: User, f: Field, o: Order)
    requires Precedes(a, b, f, o) && Precedes(b, c, f, o)
    ensures Precedes(a, c, f, o)
  {
    PrecedesIff(a, b, f, o);
    PrecedesIff(b, c, f, o);
    PrecedesIff(a, c, f, o);
    KeyTrichotomy(a, b, f);
    KeyTrichotomy(b, c, f);
    KeyTrichotomy(a, c, f);
    if o == Asc {
      if KeyLess(c, a, f) {
        if KeyLess(a, b, f) {
          KeyLessTransitive(c, a, b, f);
        }
      }
    } else {
      if KeyLess(a, c, f) {
        if KeyLess(c, b, f) {
          KeyLessTransitive(a, c, b, f);
        }
      }
    }
  }

  /** Every record may stand before every later one. */
  ghost predicate Sorted(s: seq<User>, f: Field, o: Order) {
    forall i, j :: 0 <= i < j < |s| ==> Precedes(s[i], s[j], f, o)
  }

  /** A sorted list is, in the terms of `sortOrder`, non-decreasing by `sortField` when
      ascending and non-increasing when descending. */
  lemma SortedByKey(s: seq<User>, f: Field, o: Order)
    ensures Sorted(s, f, o) <==>
              forall i, j :: 0 <= i < j < |s| ==> if o == Asc then !KeyLess(s[j], s[i], f) else !KeyLess(s[i], s[j], f)
  {
    forall i, j | 0 <= i < j < |s| {
      PrecedesIff(s[i], s[j], f, o);
    }
  }

  /** The tail of a sorted list is sorted, and its head may precede each of its records. */
  lemma SortedConsParts(x: User, t: seq<User>, f: Field, o: Order)
    requires Sorted([x] + t, f, o)
    ensures Sorted(t, f, o) && forall e :: e in t ==> Precedes(x, e, f, o)
  {
    var s := [x] + t;
    forall i, j | 0 <= i < j < |t| ensures Precedes(t[i], t[j], f, o) {
      assert t[i] == s[i + 1] && t[j] == s[j + 1];
    }
    forall e | e in t ensures Precedes(x, e, f, o) {
      var k :| 0 <= k < |t| && t[k] == e;
      assert s[0] == x && s[k + 1] == e;
      assert Precedes(s[0], s[k + 1], f, o);
    }
  }

  /** A record that may precede every record of a sorted list may be put in front of it. */
  lemma SortedConsBuild(x: User, t: seq<User>, f: Field, o: Order)
    requires Sorted(t, f, o) && forall e :: e in t ==> Precedes(x, e, f, o)
    ensures Sorted([x] + t, f, o)
  {
    var s := [x] + t;
    forall i, j | 0 <= i < j < |s| ensures Precedes(s[i], s[j], f, o) {
      if i == 0 {
        assert s[j] in t;
      } else {
        assert s[i] == t[i - 1] && s[j] == t[j - 1];
      }
    }
  }

  /** Sortedness at the front of a list. */
  lemma SortedCons(x: User, t: seq<User>, f: Field, o: Order)
    ensures Sorted([x] + t, f, o) <==> Sorted(t, f, o) && forall e :: e in t ==> Precedes(x, e, f, o)
  {
    if Sorted([x] + t, f, o) {
      SortedConsParts(x, t, f, o);
    }
    if Sorted(t, f, o) && forall e :: e in t ==> Precedes(x, e, f, o) {
      SortedConsBuild(x, t, f, o);
    }
  }

  /** Puts `x` before the first element of `s` it may precede. */
  function Insert(x: User, s: seq<User>, f: Field, o: Order): (r: seq<User>)
    ensures |r| == |s| + 1
    ensures multiset(r) == multiset(s) + multiset{x}
  {
    if s == [] then [x]
    else if Precedes(x, s[0], f, o) then [x] + s
    else
      assert s == [s[0]] + s[1..];
      [s[0]] + Insert(x, s[1..], f, o)
  }

  /** `s.sort(comparator)`: a stable sort by `Compare`, here insertion sort. The result is a
      permutation of `s`. */
  function Sort(s: seq<User>, f: Field, o: Order): (r: seq<User>)
    ensures |r| == |s|
    ensures multiset(r) == multiset(s)
  {
    if s == [] then []
    else
      assert s == [s[0]] + s[1..];
      Insert(s[0], Sort(s[1..], f, o), f, o)
  }

  /** Inserting into a sorted list keeps it sorted. */
  lemma {:induction false} InsertSorted(x: User, s: seq<User>, f: Field, o: Order)
    requires Sorted(s, f, o)
    ensures Sorted(Insert(x, s, f, o), f, o)
  {
    if s == [] {
    } else {
      assert s == [s[0]] + s[1..];
      SortedCons(s[0], s[1..], f, o);
      if Precedes(x, s[0], f, o) {
        forall e | e in s ensures Precedes(x, e, f, o) {
          if e != s[0] {
            PrecedesTransitive(x, s[0], e, f, o);
          }
        }
        SortedCons(x, s, f, o);
      } else {
        PrecedesTotal(x, s[0], f, o);
        var t := Insert(x, s[1..], f, o);
        InsertSorted(x, s[1..], f, o);
        forall e | e in t ensures Precedes(s[0], e, f, o) {
          assert e in multiset(t);
        }
        SortedCons(s[0], t, f, o);
      }
    }
  }

  /** The sort's output is sorted. */
  lemma {:induction false} SortSorted(s: seq<User>, f: Field, o: Order)
    ensures Sorted(Sort(s, f, o), f, o)
  {
    if s != [] {
      SortSorted(s[1..], f, o);
      InsertSorted(s[0], Sort(s[1..], f, o), f, o);
    }
  }

  /** The records whose field `f` holds the same value as `y`'s. */
  function TiesWith(y: User, f: Field): User -> bool {
    (u: User) => SameKey(u, y, f)
  }

  /** Inserting into a sorted list never moves `x` past a record it ties with. */
  lemma {:induction false} InsertStable(x: User, t: seq<User>, y: User, f: Field, o: Order)
    requires Sorted(t, f, o)
    ensures Filter(TiesWith(y, f), Insert(x, t, f, o)) == Filter(TiesWith(y, f), [x] + t)
  {
    var p := TiesWith(y, f);
    if t != [] && !Precedes(x, t[0], f, o) {
      var t' := t[1..];
      assert t == [t[0]] + t';
      SortedCons(t[0], t', f, o);
      InsertStable(x, t', y, f, o);
      FilterCons(p, t[0], Insert(x, t', f, o));
      FilterCons(p, x, t');
      FilterCons(p, x, t);
      FilterCons(p, t[0], t');
      assert !(p(x) && p(t[0]));
    }
  }

  /** The sort is stable: the records sharing any one value of the field keep their
      relative order. */
  lemma {:induction false} SortStable(s: seq<User>, y: User, f: Field, o: Order)
    ensures Filter(TiesWith(y, f), Sort(s, f, o)) == Filter(TiesWith(y, f), s)
  {
    if s != [] {
      var p := TiesWith(y, f);
      assert s == [s[0]] + s[1..];
      SortStable(s[1..], y, f, o);
      SortSorted(s[1..], f, o);
      InsertStable(s[0], Sort(s[1..], f, o), y, f, o);
      FilterCons(p, s[0], Sort(s[1..], f, o));
      FilterCons(p, s[0], s[1..]);
    }
  }

  /** Sorting a sorted list returns it unchanged. */
  lemma {:induction false} SortOfSorted(s: seq<User>, f: Field, o: Order)
    requires Sorted(s, f, o)
    ensures Sort(s, f, o) == s
  {
    if s != [] {
      assert s == [s[0]] + s[1..];
      SortedCons(s[0], s[1..], f, o);
      SortOfSorted(s[1..], f, o);
    }
  }

  /** Sorting twice is sorting once. */
  lemma SortIdempotent(s: seq<User>, f: Field, o: Order)
    ensures Sort(Sort(s, f, o), f, o) == Sort(s, f, o)
  {
    SortSorted(s, f, o);
    SortOfSorted(Sort(s, f, o), f, o);
  }

  /** Sorting keeps ids distinct. */
  lemma SortKeepsIdsUnique(s: seq<User>, f: Field, o: Order)
    requires UniqueIds(s)
    ensures UniqueIds(Sort(s, f, o))
  {
    PermutationKeepsIdsUnique(s, Sort(s, f, o));
  }

  /** Two sorted lists with the same records start with records of the same value. */
  lemma SortedHeadsTie(r: seq<User>, t: seq<User>, f: Field, o: Order)
    requires multiset(r) == multiset(t) && r != []
    requires Sorted(r, f, o) && Sorted(t, f, o)
    ensures t != [] && SameKey(r[0], t[0], f)
  {
    assert r[0] in multiset(t);
    assert t[0] in multiset(r);
    assert r == [r[0]] + r[1..] && t == [t[0]] + t[1..];
    SortedCons(r[0], r[1..], f, o);
    SortedCons(t[0], t[1..], f, o);
    PrecedesIff(r[0], t[0], f, o);
    PrecedesIff(t[0], r[0], f, o);
    KeyTrichotomy(r[0], t[0], f);
  }

  /** Filters that agree after the same first element agree on the rest. */
  lemma FilterConsCancel(q: User -> bool, x: User, a: seq<User>, b: seq<User>)
    requires Filter(q, [x] + a) == Filter(q, [x] + b)
    ensures Filter(q, a) == Filter(q, b)
  {
    FilterCons(q, x, a);
    FilterCons(q, x, b);
    var h := if q(x) then [x] else [];
    assert (h + Filter(q, a))[|h|..] == Filter(q, a);
    assert (h + Filter(q, b))[|h|..] == Filter(q, b);
  }

  /** Two lists starting with records of the same value, whose records of that value come
      in the same order, start with the same record. */
  lemma TiedHeadsEqual(r: seq<User>, t: seq<User>, f: Field)
    requires r != [] && t != [] && SameKey(t[0], r[0], f)
    requires Filter(TiesWith(r[0], f), r) == Filter(TiesWith(r[0], f), t)
    ensures r[0] == t[0]
  {
    var p := TiesWith(r[0], f);
    var x, z := r[0], t[0];
    assert p(x) && p(z);
    assert r == [x] + r[1..] && t == [z] + t[1..];
    FilterCons(p, x, r[1..]);
    FilterCons(p, z, t[1..]);
    var a, b := Filter(p, r), Filter(p, t);
    assert a == [x] + Filter(p, r[1..]) && b == [z] + Filter(p, t[1..]);
    assert a[0] == x && b[0] == z;
  }

  /** Removing the same first record from two lists with the same records, whose records
      of each value come in the same order, leaves two such lists. */
  lemma TiedTails(r: seq<User>, t: seq<User>, f: Field)
    requires r != [] && t != [] && r[0] == t[0]
    requires multiset(r) == multiset(t)
    requires forall y :: Filter(TiesWith(y, f), r) == Filter(TiesWith(y, f), t)
    ensures multiset(r[1..]) == multiset(t[1..])
    ensures forall y :: Filter(TiesWith(y, f), r[1..]) == Filter(TiesWith(y, f), t[1..])
  {
    var x, r', t' := r[0], r[1..], t[1..];
    assert r == [x] + r' && t == [x] + t';
    forall y ensures Filter(TiesWith(y, f), r') == Filter(TiesWith(y, f), t') {
      FilterConsCancel(TiesWith(y, f), x, r', t');
    }
    MultisetTail(r, t);
  }

  /** Two lists with the same records and the same first record have tails with the same
      records. */
  lemma MultisetTail(r: seq<User>, t: seq<User>)
    requires r != [] && t != [] && r[0] == t[0]
    requires multiset(r) == multiset(t)
    ensures multiset(r[1..]) == multiset(t[1..])
  {
    var x := r[0];
    assert r == [x] + r[1..] && t == [x] + t[1..];
    assert multiset(r) == multiset{x} + multiset(r[1..]);
    assert multiset(t) == multiset{x} + multiset(t[1..]);
    assert forall e :: multiset(r[1..])[e] == multiset(r)[e] - multiset{x}[e] == multiset(t[1..])[e];
  }

  /** The tail of a sorted list is sorted. */
  lemma SortedTail(s: seq<User>, f: Field, o: Order)
    requires s != [] && Sorted(s, f, o)
    ensures Sorted(s[1..], f, o)
  {
    assert s == [s[0]] + s[1..];
    SortedCons(s[0], s[1..], f, o);
  }

  /** Two sorted lists with the same records, whose records of each value of the field
      come in the same order, are equal. */
  lemma {:induction false} SortedTiesEqual(r: seq<User>, t: seq<User>, f: Field, o: Order)
    requires multiset(r) == multiset(t)
    requires Sorted(r, f, o) && Sorted(t, f, o)
    requires forall y :: Filter(TiesWith(y, f), r) == Filter(TiesWith(y, f), t)
    ensures r == t
    decreases |r|
  {
    if r != [] {
      SortedHeadsTie(r, t, f, o);
      TiedHeadsEqual(r, t, f);
      TiedTails(r, t, f);
      SortedTail(r, f, o);
      SortedTail(t, f, o);
      SortedTiesEqual(r[1..], t[1..], f, o);
      assert r == [r[0]] + r[1..] && t == [t[0]] + t[1..];
    }
  }

  /** The sort's result is the only sorted, stable reordering of its input: any engine's
      stable sort with this comparator returns the same list. */
  lemma SortUnique(s: seq<User>, t: seq<User>, f: Field, o: Order)
    requires multiset(t) == multiset(s)
    requires Sorted(t, f, o)
    requires forall y :: Filter(TiesWith(y, f), t) == Filter(TiesWith(y, f), s)
    ensures t == Sort(s, f, o)
  {
    SortSorted(s, f, o);
    forall y ensures Filter(TiesWith(y, f), Sort(s, f, o)) == Filter(TiesWith(y, f), s) {
      SortStable(s, y, f, o);
    }
    SortedTiesEqual(Sort(s, f, o), t, f, o);
  }
}
