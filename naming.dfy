/**
 * Name-based views of an ordered store under a namer (`Namer.determineName`):
 * filtering, direct lookup, name uniqueness, and the effect of a name-checked `add`.
 * Names are recomputed from the elements every time; nothing here caches them.
 */
module Naming {
  import opened Results

  /** The elements of `s` that satisfy `f`, in store order: what a filtered store iterates over. */
  function Filter<T>(s: seq<T>, f: T -> bool): (r: seq<T>)
    ensures |r| <= |s|
    ensures forall o :: o in r ==> o in s && f(o)
    ensures forall o :: o in s && f(o) ==> o in r
    decreases |s|
  {
    if s == [] then []
    else
      var init := s[..|s| - 1];
      assert s == init + [s[|s| - 1]];
      Filter(init, f) + (if f(s[|s| - 1]) then [s[|s| - 1]] else [])
  }

  lemma FilterAppend<T>(s: seq<T>, o: T, f: T -> bool)
    ensures Filter(s + [o], f) == Filter(s, f) + (if f(o) then [o] else [])
  {
    assert (s + [o])[..|s|] == s;
  }

  /** A filter that accepts everything leaves the store as it is. */
  lemma {:induction false} FilterAll<T>(s: seq<T>, f: T -> bool)
    requires forall o :: f(o)
    ensures Filter(s, f) == s
    decreases |s|
  {
    if s != [] {
      var init := s[..|s| - 1];
      FilterAll(init, f);
      assert s == init + [s[|s| - 1]];
    }
  }

  /** Filtering by `f` and then by `g` is filtering once by their conjunction `h`. */
  lemma {:induction false} FilterCompose<T>(s: seq<T>, f: T -> bool, g: T -> bool, h: T -> bool)
    requires forall o :: h(o) == (f(o) && g(o))
    ensures Filter(s, h) == Filter(Filter(s, f), g)
    decreases |s|
  {
    if s != [] {
      var init, last := s[..|s| - 1], s[|s| - 1];
      assert s == init + [last];
      FilterCompose(init, f, g, h);
      FilterAppend(init, last, h);
      FilterAppend(init, last, f);
      if f(last) {
        FilterAppend(Filter(init, f), last, g);
      } else {
        assert Filter(s, f) == Filter(init, f);
      }
    }
  }

  /** The position of the first element of `s` named `name`, or `|s|` when there is none. */
  function FirstIndexNamed<T>(s: seq<T>, namer: T -> string, name: string): (i: nat)
    ensures i <= |s|
    ensures forall j :: 0 <= j < i ==> namer(s[j]) != name
    ensures i < |s| ==> namer(s[i]) == name
    decreases |s|
  {
    if s == [] then 0
    else if namer(s[0]) == name then 0
    else 1 + FirstIndexNamed(s[1..], namer, name)
  }

  /** `findByNameWithoutRules` over `s`: the first element in store order named `name`. */
  function FirstNamed<T>(s: seq<T>, namer: T -> string, name: string): (r: Option<T>)
    ensures r.None? <==> forall j :: 0 <= j < |s| ==> namer(s[j]) != name
    ensures r.Some? ==> r.value in s && namer(r.value) == name
  {
    var i := FirstIndexNamed(s, namer, name);
    if i < |s| then Some(s[i]) else None
  }

  /** The position of the last element of `s` named `name`, or `|s|` when there is none. */
  function LastIndexNamed<T>(s: seq<T>, namer: T -> string, name: string): (i: nat)
    ensures i <= |s|
    ensures i < |s| ==> namer(s[i]) == name && forall j :: i < j < |s| ==> namer(s[j]) != name
    ensures i == |s| ==> forall j :: 0 <= j < |s| ==> namer(s[j]) != name
    decreases |s|
  {
    if s == [] then 0
    else if namer(s[|s| - 1]) == name then |s| - 1
    else
      var i := LastIndexNamed(s[..|s| - 1], namer, name);
      if i < |s| - 1 then i else |s|
  }

  /** The last element in store order named `name`: the one a later `put` under the same key leaves behind. */
  function LastNamed<T>(s: seq<T>, namer: T -> string, name: string): (r: Option<T>)
    ensures r.None? <==> forall j :: 0 <= j < |s| ==> namer(s[j]) != name
    ensures r.Some? ==> r.value in s && namer(r.value) == name
    ensures r.Some? ==> r.value == s[LastIndexNamed(s, namer, name)]
    decreases |s|
  {
    if s == [] then None
    else if namer(s[|s| - 1]) == name then Some(s[|s| - 1])
    else LastNamed(s[..|s| - 1], namer, name)
  }

  /** No two elements of `s` have the same name. */
  predicate NamesDistinct<T>(s: seq<T>, namer: T -> string)
  {
    forall i, j :: 0 <= i < j < |s| ==> namer(s[i]) != namer(s[j])
  }

  ghost function NameSet<T>(s: seq<T>, namer: T -> string): set<string>
  {
    set i | 0 <= i < |s| :: namer(s[i])
  }

  lemma NameSetAppend<T>(s: seq<T>, o: T, namer: T -> string)
    ensures NameSet(s + [o], namer) == NameSet(s, namer) + {namer(o)}
  {
    var t := s + [o];
    forall n | n in NameSet(t, namer) ensures n in NameSet(s, namer) + {namer(o)} {
      var i :| 0 <= i < |t| && namer(t[i]) == n;
      if i < |s| {
        assert t[i] == s[i];
      }
    }
    forall n | n in NameSet(s, namer) ensures n in NameSet(t, namer) {
      var i :| 0 <= i < |s| && namer(s[i]) == n;
      assert t[i] == s[i];
    }
    assert t[|s|] == o;
  }

  /** With distinct names, the first and the last element of a name are the same element. */
  lemma DistinctFirstIsLast<T>(s: seq<T>, namer: T -> string, name: string)
    requires NamesDistinct(s, namer)
    ensures FirstNamed(s, namer, name) == LastNamed(s, namer, name)
  {
    var first, last := FirstNamed(s, namer, name), LastNamed(s, namer, name);
    if first.Some? {
      var i := FirstIndexNamed(s, namer, name);
      var j :| 0 <= j < |s| && s[j] == last.value;
      assert namer(s[i]) == namer(s[j]);
    }
  }

  /**
   * The store after `add(o)` on a collection that sees `Filter(s, f)`: `o` is appended
   * when no visible element already carries its name, otherwise nothing changes.
   */
  function AddEffect<T>(s: seq<T>, f: T -> bool, namer: T -> string, o: T): (r: seq<T>)
    ensures s <= r && |r| <= |s| + 1
  {
    if FirstNamed(Filter(s, f), namer, namer(o)).None? then s + [o] else s
  }

  /** A name-checked add never makes two visible elements share a name. */
  lemma AddKeepsNamesDistinct<T>(s: seq<T>, f: T -> bool, namer: T -> string, o: T)
    requires NamesDistinct(Filter(s, f), namer)
    ensures NamesDistinct(Filter(AddEffect(s, f, namer, o), f), namer)
  {
    var v := Filter(s, f);
    if FirstNamed(v, namer, namer(o)).None? {
      FilterAppend(s, o, f);
      var w := Filter(s + [o], f);
      forall i, j | 0 <= i < j < |w| ensures namer(w[i]) != namer(w[j]) {
        if j == |v| {
          assert w[i] == v[i];
        } else {
          assert w[i] == v[i] && w[j] == v[j];
        }
      }
    }
  }

  /** The store after `add` is called on each of `os` in turn. */
  function AddAll<T>(s: seq<T>, f: T -> bool, namer: T -> string, os: seq<T>): (r: seq<T>)
    ensures s <= r
    decreases |os|
  {
    if os == [] then s else AddAll(AddEffect(s, f, namer, os[0]), f, namer, os[1..])
  }

  /** Pairwise-distinct names stay pairwise distinct under any sequence of adds. */
  lemma {:induction false} AddAllKeepsNamesDistinct<T>(s: seq<T>, f: T -> bool, namer: T -> string, os: seq<T>)
    requires NamesDistinct(Filter(s, f), namer)
    ensures NamesDistinct(Filter(AddAll(s, f, namer, os), f), namer)
    decreases |os|
  {
    if os != [] {
      AddKeepsNamesDistinct(s, f, namer, os[0]);
      AddAllKeepsNamesDistinct(AddEffect(s, f, namer, os[0]), f, namer, os[1..]);
    }
  }

  /** `Filter` distributes over concatenation. */
  lemma {:induction false} FilterConcat<T>(a: seq<T>, b: seq<T>, f: T -> bool)
    ensures Filter(a + b, f) == Filter(a, f) + Filter(b, f)
    decreases |b|
  {
    if b != [] {
      var init, last := b[..|b| - 1], b[|b| - 1];
      assert b == init + [last];
      assert a + b == (a + init) + [last];
      FilterConcat(a, init, f);
      FilterAppend(a + init, last, f);
      FilterAppend(init, last, f);
    } else {
      assert a + b == a;
    }
  }

  /** Dropping a middle part of a sequence keeps its names pairwise distinct. */
  lemma DistinctDropMiddle<T>(a: seq<T>, m: seq<T>, c: seq<T>, namer: T -> string)
    requires NamesDistinct(a + m + c, namer)
    ensures NamesDistinct(a + c, namer)
  {
    var whole, kept := a + m + c, a + c;
    forall i, j | 0 <= i < j < |kept| ensures namer(kept[i]) != namer(kept[j]) {
      var i' := if i < |a| then i else i + |m|;
      var j' := if j < |a| then j else j + |m|;
      assert kept[i] == whole[i'] && kept[j] == whole[j'];
    }
  }

  /** The position of the first element of `s` equal to `o`, or `|s|` when there is none. */
  function IndexOf<T(==)>(s: seq<T>, o: T): (i: nat)
    ensures i <= |s|
    ensures i < |s| ==> s[i] == o && o !in s[..i]
    ensures i == |s| ==> o !in s
    decreases |s|
  {
    if s == [] then 0
    else if s[0] == o then 0
    else
      var i := 1 + IndexOf(s[1..], o);
      assert s == [s[0]] + s[1..];
      assert i < |s| ==> s[..i] == [s[0]] + s[1..][..i - 1];
      i
  }

  /** `Collection.remove(o)` on an ordered store: the first element equal to `o` goes, the rest keep their order. */
  function RemoveFirst<T(==)>(s: seq<T>, o: T): (r: seq<T>)
    ensures o !in s ==> r == s
    ensures o in s ==> r == s[..IndexOf(s, o)] + s[IndexOf(s, o) + 1..]
    ensures o in s ==> |r| == |s| - 1 && multiset(r) == multiset(s) - multiset{o}
  {
    var i := IndexOf(s, o);
    if i < |s| then
      assert s == s[..i] + [o] + s[i + 1..];
      s[..i] + s[i + 1..]
    else s
  }

  /** Removing an element keeps the visible names pairwise distinct. */
  lemma RemoveFirstKeepsNamesDistinct<T>(s: seq<T>, f: T -> bool, namer: T -> string, o: T)
    requires NamesDistinct(Filter(s, f), namer)
    ensures NamesDistinct(Filter(RemoveFirst(s, o), f), namer)
  {
    if o in s {
      var i := IndexOf(s, o);
      var a, c := s[..i], s[i + 1..];
      assert s == a + [s[i]] + c;
      FilterConcat(a + [s[i]], c, f);
      FilterConcat(a, [s[i]], f);
      FilterConcat(a, c, f);
      DistinctDropMiddle(Filter(a, f), Filter([s[i]], f), Filter(c, f), namer);
    }
  }
}
