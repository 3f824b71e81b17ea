/** Doubly linked lists in memory: next and prev links that represent a sequence of addresses. */
module HashList {
  import opened Basics
  import opened HashSort

  /** `next` runs along `s` and ends at `end`. */
  ghost predicate Linked(next: Links, s: seq<nat>, end: nat) {
    s != [] ==> s[0] in next && next[s[0]] == (if |s| == 1 then end else s[1]) && Linked(next, s[1..], end)
  }

  /** `prev` runs back along `s`, and from its first element to `before`. */
  ghost predicate Back(prev: Links, s: seq<nat>, before: nat) {
    s != [] ==> s[0] in prev && prev[s[0]] == before && Back(prev, s[1..], s[0])
  }

  /** `next` runs along `s`, wherever it goes from the last element. */
  ghost predicate Open(next: Links, s: seq<nat>) {
    s != [] ==> s[0] in next && (|s| > 1 ==> next[s[0]] == s[1]) && Open(next, s[1..])
  }

  ghost predicate NoDup(s: seq<nat>) {
    s != [] ==> s[0] != 0 && s[0] !in s[1..] && NoDup(s[1..])
  }

  /** A complete list. */
  ghost predicate IsList(next: Links, prev: Links, first: nat, s: seq<nat>) {
    first == First(s) && Linked(next, s, 0) && Back(prev, s, 0)
  }

  ghost predicate SameLinks(m: Links, m': Links, s: seq<nat>) {
    forall x | x in s && x in m :: x in m' && m'[x] == m[x]
  }

  lemma {:induction false} LinkedFrame(m: Links, m': Links, s: seq<nat>, end: nat)
    requires Linked(m, s, end) && SameLinks(m, m', s)
    ensures Linked(m', s, end)
  {
    if s != [] {
      assert s[0] in s;
      LinkedFrame(m, m', s[1..], end);
    }
  }

  lemma {:induction false} BackFrame(m: Links, m': Links, s: seq<nat>, before: nat)
    requires Back(m, s, before) && SameLinks(m, m', s)
    ensures Back(m', s, before)
  {
    if s != [] {
      assert s[0] in s;
      BackFrame(m, m', s[1..], s[0]);
    }
  }

  lemma {:induction false} OpenFrame(m: Links, m': Links, s: seq<nat>)
    requires Open(m, s) && SameLinks(m, m', s)
    ensures Open(m', s)
  {
    if s != [] {
      assert s[0] in s;
      OpenFrame(m, m', s[1..]);
    }
  }

  lemma {:induction false} LinkedIsOpen(m: Links, s: seq<nat>, end: nat)
    requires Linked(m, s, end)
    ensures Open(m, s) && (s != [] ==> Last(s) in m && m[Last(s)] == end)
  {
    if |s| > 1 { LinkedIsOpen(m, s[1..], end); }
  }

  lemma {:induction false} OpenEnd(m: Links, s: seq<nat>, end: nat)
    requires Open(m, s) && s != [] && Last(s) in m && m[Last(s)] == end
    ensures Linked(m, s, end)
  {
    if |s| > 1 { OpenEnd(m, s[1..], end); }
  }

  lemma {:induction false} OpenIn(m: Links, s: seq<nat>)
    requires Open(m, s)
    ensures forall x | x in s :: x in m
  {
    if s != [] {
      OpenIn(m, s[1..]);
      assert s == [s[0]] + s[1..];
    }
  }

  /** Following the last link to a further element. */
  lemma {:induction false} OpenSnoc(m: Links, s: seq<nat>, x: nat)
    requires Open(m, s) && x in m && (s != [] ==> Last(s) in m && m[Last(s)] == x)
    ensures Open(m, s + [x])
  {
    if s != [] {
      if |s| > 1 { OpenSnoc(m, s[1..], x); } else { assert s[1..] + [x] == [x]; }
      assert (s + [x])[1..] == s[1..] + [x];
    }
  }

  lemma {:induction false} BackSnoc(m: Links, s: seq<nat>, before: nat, x: nat)
    requires Back(m, s, before) && x in m && m[x] == if s == [] then before else Last(s)
    ensures Back(m, s + [x], before)
  {
    if s == [] {
      assert s + [x] == [x];
    } else {
      BackSnoc(m, s[1..], s[0], x);
      assert (s + [x])[1..] == s[1..] + [x];
    }
  }

  /** Splitting a list. */
  lemma {:induction false} LinkedSplit(m: Links, s: seq<nat>, t: seq<nat>, end: nat)
    requires Linked(m, s + t, end)
    ensures Linked(m, s, if t == [] then end else t[0]) && Linked(m, t, end)
  {
    if s == [] {
      assert s + t == t;
    } else {
      assert (s + t)[1..] == s[1..] + t;
      LinkedSplit(m, s[1..], t, end);
    }
  }

  lemma {:induction false} LinkedJoin(m: Links, s: seq<nat>, t: seq<nat>, end: nat)
    requires Linked(m, s, if t == [] then end else t[0]) && Linked(m, t, end)
    ensures Linked(m, s + t, end)
  {
    if s == [] {
      assert s + t == t;
    } else {
      assert (s + t)[1..] == s[1..] + t;
      LinkedJoin(m, s[1..], t, end);
    }
  }

  lemma {:induction false} BackSplit(m: Links, s: seq<nat>, t: seq<nat>, before: nat)
    requires Back(m, s + t, before)
    ensures Back(m, s, before) && Back(m, t, if s == [] then before else Last(s))
  {
    if s == [] {
      assert s + t == t;
    } else {
      assert (s + t)[1..] == s[1..] + t;
      BackSplit(m, s[1..], t, s[0]);
    }
  }

  lemma {:induction false} BackJoin(m: Links, s: seq<nat>, t: seq<nat>, before: nat)
    requires Back(m, s, before) && Back(m, t, if s == [] then before else Last(s))
    ensures Back(m, s + t, before)
  {
    if s == [] {
      assert s + t == t;
    } else {
      assert (s + t)[1..] == s[1..] + t;
      BackJoin(m, s[1..], t, s[0]);
    }
  }

  lemma {:induction false} NoDupAppend(s: seq<nat>, t: seq<nat>)
    ensures NoDup(s + t) <==> NoDup(s) && NoDup(t) && forall x | x in s :: x !in t
  {
    if s == [] {
      assert s + t == t;
    } else {
      assert (s + t)[1..] == s[1..] + t;
      NoDupAppend(s[1..], t);
      assert s == [s[0]] + s[1..];
    }
  }

  lemma NoDupOne(x: nat)
    ensures NoDup([x]) <==> x != 0
  {
  }

  lemma {:induction false} NoDupNonzero(s: seq<nat>)
    requires NoDup(s)
    ensures forall x | x in s :: x != 0
  {
    if s != [] {
      NoDupNonzero(s[1..]);
      assert s == [s[0]] + s[1..];
    }
  }

  /** The parts of a sequence around one of its elements. */
  ghost function Around(s: seq<nat>, x: nat): (r: (seq<nat>, seq<nat>))
    requires x in s
    ensures s == r.0 + [x] + r.1 && x !in r.0
  {
    if s[0] == x then ([], s[1..]) else
    var r := Around(s[1..], x);
    ([s[0]] + r.0, r.1)
  }

  // ------------------------------------------------------------------ the sort

  /** The state while two runs are merged: the output `o`, what is left of the first run, and the rest of the list. */
  ghost predicate Merging(next: Links, prev: Links, list: nat, tail: nat, p: nat, q: nat, o: seq<nat>, ps: seq<nat>,
                          qs: seq<nat>) {
    && NoDup(o + ps + qs)
    && Open(next, o) && Back(prev, o, 0) && list == First(o) && tail == Last(o)
    && Open(next, ps) && (ps != [] ==> p == ps[0])
    && Linked(next, qs, 0) && q == First(qs)
    && (forall x | x in o + ps + qs :: x in prev)
  }

  /** Appending the first element of the first run to the output. */
  lemma TakeP(next: Links, next': Links, prev: Links, prev': Links, list: nat, tail: nat, p: nat, q: nat,
              o: seq<nat>, ps: seq<nat>, qs: seq<nat>)
    requires Merging(next, prev, list, tail, p, q, o, ps, qs) && ps != [] && p in next
    requires next' == if tail != 0 then next[tail := p] else next
    requires prev' == prev[p := tail]
    ensures Merging(next', prev', if tail != 0 then list else p, p, next[p], q, o + [p], ps[1..], qs)
  {
    hide Linked, Back, Open, NoDup;
    assert o + ps + qs == (o + [p]) + ps[1..] + qs;
    NoDupAppend(o + ps, qs);
    NoDupAppend(o, ps);
    assert ps == [p] + ps[1..];
    NoDupAppend([p], ps[1..]);
    NoDupNonzero(o);
    TakeLinks(next, next', prev, prev', tail, p, o);
    OpenTail(next, ps);
    LastIn(o);
    OpenFrame(next, next', ps[1..]);
    LinkedFrame(next, next', qs, 0);
  }

  lemma LastIn(o: seq<nat>)
    ensures o != [] ==> Last(o) in o
    ensures forall x: nat :: Last(o + [x]) == x && First(o + [x]) == if o == [] then x else First(o)
  {
  }

  lemma OpenTail(m: Links, s: seq<nat>)
    requires Open(m, s) && s != []
    ensures Open(m, s[1..]) && s[0] in m && (|s| > 1 ==> m[s[0]] == s[1..][0])
  {
  }

  /** The links of the output after an element is appended. */
  lemma TakeLinks(next: Links, next': Links, prev: Links, prev': Links, tail: nat, e: nat, o: seq<nat>)
    requires Open(next, o) && Back(prev, o, 0) && tail == Last(o) && NoDup(o) && e !in o && e in next
    requires next' == if tail != 0 then next[tail := e] else next
    requires prev' == prev[e := tail]
    ensures Open(next', o + [e]) && Back(prev', o + [e], 0)
  {
    hide Linked, Back, Open, NoDup;
    NoDupNonzero(o);
    if o != [] {
      var front := o[..|o| - 1];
      assert o == front + [tail];
      assert tail in o;
      OpenPrefix(next, front, tail);
      NoDupAppend(front, [tail]);
      OpenIn(next, o);
      OpenFrame(next, next', front);
      OpenSnoc(next', front, tail);
    } else {
      OpenFrame(next, next', o);
    }
    OpenSnoc(next', o, e);
    BackFrame(prev, prev', o, 0);
    BackSnoc(prev', o, 0, e);
  }

  lemma {:induction false} OpenPrefix(m: Links, s: seq<nat>, x: nat)
    requires Open(m, s + [x])
    ensures Open(m, s) && x in m && (s != [] ==> Last(s) in m && m[Last(s)] == x)
  {
    if s == [] {
      assert s + [x] == [x];
    } else {
      assert (s + [x])[1..] == s[1..] + [x];
      OpenPrefix(m, s[1..], x);
    }
  }

  /** Appending the first element of the second run to the output. */
  lemma TakeQ(next: Links, next': Links, prev: Links, prev': Links, list: nat, tail: nat, p: nat, q: nat,
              o: seq<nat>, ps: seq<nat>, qs: seq<nat>)
    requires Merging(next, prev, list, tail, p, q, o, ps, qs) && qs != [] && q in next
    requires next' == if tail != 0 then next[tail := q] else next
    requires prev' == prev[q := tail]
    ensures Merging(next', prev', if tail != 0 then list else q, q, p, next[q], o + [q], ps, qs[1..])
  {
    hide Linked, Back, Open, NoDup;
    NoDupAppend(o + ps, qs);
    NoDupAppend(o, ps);
    assert forall x | x in o || x in ps :: x in o + ps;
    assert q in qs;
    assert qs == [q] + qs[1..];
    NoDupAppend([q], qs[1..]);
    NoDupAppend(o, [q]);
    NoDupAppend(o + [q], ps);
    NoDupAppend(o + [q] + ps, qs[1..]);
    NoDupNonzero(o);
    TakeLinks(next, next', prev, prev', tail, q, o);
    LastIn(o);
    LinkedTail(next, qs, 0);
    OpenFrame(next, next', ps);
    LinkedFrame(next, next', qs[1..], 0);
  }

  lemma LinkedTail(m: Links, s: seq<nat>, end: nat)
    requires Linked(m, s, end) && s != []
    ensures Linked(m, s[1..], end) && s[0] in m && m[s[0]] == if |s| == 1 then end else s[1..][0]
  {
  }
}
