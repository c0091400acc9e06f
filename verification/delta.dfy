/** The delta engine: `get_member_delta` of utils.py and afi_tracker/utils/frontend.py
    (identical bodies, with an empty-list guard) and of frontend.py (without it).

    Python's `dict(pairs)` is modelled as it behaves: a later pair for a name already
    present overwrites the rating but keeps the name's first position among the keys.
    Every statement below is made over those dictionaries, so no member needs distinct
    names; `DictOf` says what the dictionaries are when the names are distinct. */
module Delta {

  /** One `(name, rating)` pair of a member list. */
  datatype Member = Member(name: string, rating: int)

  /** One `(name, current_rating, change)` row of the result. */
  datatype Entry = Entry(name: string, current: int, change: int)

  function NamesOf(ms: seq<Member>): (ns: seq<string>)
    ensures |ns| == |ms| && forall i :: 0 <= i < |ms| ==> ns[i] == ms[i].name
  {
    seq(|ms|, i requires 0 <= i < |ms| => ms[i].name)
  }

  function EntryNames(es: seq<Entry>): (ns: seq<string>)
    ensures |ns| == |es| && forall i :: 0 <= i < |es| ==> ns[i] == es[i].name
  {
    seq(|es|, i requires 0 <= i < |es| => es[i].name)
  }

  predicate Distinct(ks: seq<string>) {
    forall i, j :: 0 <= i < j < |ks| ==> ks[i] != ks[j]
  }

  predicate DistinctNames(ms: seq<Member>) {
    Distinct(NamesOf(ms))
  }

  /** `a` occurs before `b` in `s`. */
  ghost predicate Precedes(s: seq<string>, a: string, b: string) {
    exists p, q :: 0 <= p < q < |s| && s[p] == a && s[q] == b
  }

  /** A Python dict from names to ratings: its keys in iteration order and its values. */
  datatype Dict = Dict(keys: seq<string>, value: map<string, int>)

  ghost predicate WellFormed(d: Dict) {
    Distinct(d.keys) && forall k :: k in d.value <==> k in d.keys
  }

  /** Every name in `s` has a rating in `v`. */
  ghost predicate Rated(s: seq<string>, v: map<string, int>) {
    forall k :: k in s ==> k in v
  }

  /** `dict(ms)`: a later pair for a name already present overwrites its rating and
      leaves its position alone. `DictKeys`, `DictLastWins` and `DictOfDistinct` say
      what comes out. */
  function DictOf(ms: seq<Member>): (d: Dict)
    ensures WellFormed(d)
  {
    if ms == [] then Dict([], map[])
    else
      var d := DictOf(ms[..|ms| - 1]);
      var m := ms[|ms| - 1];
      Dict(if m.name in d.value then d.keys else d.keys + [m.name], d.value[m.name := m.rating])
  }

  /** The dict has a key exactly for each name of the list. */
  lemma {:induction false} DictKeys(ms: seq<Member>)
    ensures forall k :: k in DictOf(ms).value <==> k in NamesOf(ms)
  {
    if ms != [] {
      DictKeys(ms[..|ms| - 1]);
      assert NamesOf(ms) == NamesOf(ms[..|ms| - 1]) + [ms[|ms| - 1].name];
    }
  }

  /** The rating stored for a name is that of its last pair. */
  lemma {:induction false} DictLastWins(ms: seq<Member>, i: nat)
    requires i < |ms|
    requires forall j :: i < j < |ms| ==> ms[j].name != ms[i].name
    ensures ms[i].name in DictOf(ms).value && DictOf(ms).value[ms[i].name] == ms[i].rating
  {
    if i < |ms| - 1 {
      DictLastWins(ms[..|ms| - 1], i);
    }
  }

  /** With distinct names the keys are the names in list order and each name maps to its
      own rating. */
  lemma {:induction false} DictOfDistinct(ms: seq<Member>)
    requires DistinctNames(ms)
    ensures DictOf(ms).keys == NamesOf(ms)
    ensures forall i :: 0 <= i < |ms| ==> DictOf(ms).value[ms[i].name] == ms[i].rating
  {
    if ms != [] {
      var pre := ms[..|ms| - 1];
      assert NamesOf(ms) == NamesOf(pre) + [ms[|ms| - 1].name];
      assert DistinctNames(pre);
      DictOfDistinct(pre);
      DictKeys(pre);
      assert ms[|ms| - 1].name !in NamesOf(pre);
      forall i | 0 <= i < |ms|
        ensures DictOf(ms).value[ms[i].name] == ms[i].rating
      {
        DictLastWins(ms, i);
      }
    }
  }

  // ---------------------------------------------------------------------------
  // Ordering: `sorted(new_dict, key=lambda n: new_dict[n], reverse=True)`

  ghost predicate Descending(s: seq<string>, v: map<string, int>)
    requires Rated(s, v)
  {
    forall i, j :: 0 <= i < j < |s| ==> v[s[i]] >= v[s[j]]
  }

  /** Places `k` in front of the first name whose rating is not above its own. */
  function InsertByRating(k: string, s: seq<string>, v: map<string, int>): (r: seq<string>)
    requires k in v && Rated(s, v)
    ensures multiset(r) == multiset(s) + multiset{k}
    ensures forall x :: x in r <==> x == k || x in s
  {
    if s == [] || v[k] >= v[s[0]] then [k] + s
    else
      assert s == [s[0]] + s[1..];
      [s[0]] + InsertByRating(k, s[1..], v)
  }

  /** Names by rating, highest first (`SortIsDescending`). Python's sort stays stable
      under `reverse=True`, so names with equal ratings keep their order
      (`SortIsStable`). */
  function SortByRating(ks: seq<string>, v: map<string, int>): (r: seq<string>)
    requires Rated(ks, v)
    ensures multiset(r) == multiset(ks)
    ensures forall x :: x in r <==> x in ks
  {
    if ks == [] then []
    else
      assert ks == [ks[0]] + ks[1..];
      InsertByRating(ks[0], SortByRating(ks[1..], v), v)
  }

  lemma {:induction false} InsertKeepsDescending(k: string, s: seq<string>, v: map<string, int>)
    requires k in v && Rated(s, v) && Descending(s, v)
    ensures Rated(InsertByRating(k, s, v), v) && Descending(InsertByRating(k, s, v), v)
  {
    if s != [] && v[k] < v[s[0]] {
      var t := InsertByRating(k, s[1..], v);
      assert s == [s[0]] + s[1..];
      InsertKeepsDescending(k, s[1..], v);
      assert forall x :: x in t ==> v[x] <= v[s[0]];
    }
  }

  /** The sorted names run from the highest rating to the lowest. */
  lemma {:induction false} SortIsDescending(ks: seq<string>, v: map<string, int>)
    requires Rated(ks, v)
    ensures Rated(SortByRating(ks, v), v) && Descending(SortByRating(ks, v), v)
  {
    if ks != [] {
      assert ks == [ks[0]] + ks[1..];
      SortIsDescending(ks[1..], v);
      InsertKeepsDescending(ks[0], SortByRating(ks[1..], v), v);
    }
  }

  lemma PrecedesInTail(s: seq<string>, a: string, b: string)
    requires |s| > 0 && Precedes(s[1..], a, b)
    ensures Precedes(s, a, b)
  {
    var p, q :| 0 <= p < q < |s[1..]| && s[1..][p] == a && s[1..][q] == b;
    assert s[p + 1] == a && s[q + 1] == b;
  }

  lemma PrecedesFromHead(s: seq<string>, b: string)
    requires |s| > 0 && b in s[1..]
    ensures Precedes(s, s[0], b)
  {
    var q :| 0 <= q < |s[1..]| && s[1..][q] == b;
    assert s[q + 1] == b;
  }

  lemma PrecedesInPrefix(s: seq<string>, n: nat, a: string, b: string)
    requires n <= |s| && Precedes(s[..n], a, b)
    ensures Precedes(s, a, b)
  {
    var p, q :| 0 <= p < q < n && s[..n][p] == a && s[..n][q] == b;
    assert s[p] == a && s[q] == b;
  }

  lemma PrecedesToLast(s: seq<string>, a: string)
    requires |s| > 0 && a in s[..|s| - 1]
    ensures Precedes(s, a, s[|s| - 1])
  {
    var p :| 0 <= p < |s| - 1 && s[..|s| - 1][p] == a;
    assert s[p] == a;
  }

  /** Inserting `k` keeps every equal-rated pair in its old order, except that `k` goes in
      front of the names it ties with. */
  lemma {:induction false} InsertKeepsOrder(k: string, s: seq<string>, v: map<string, int>, r: seq<string>)
    requires k in v && Rated(s, v) && r == InsertByRating(k, s, v)
    ensures forall i, j :: 0 <= i < j < |r| && v[r[i]] == v[r[j]] ==>
              Precedes(s, r[i], r[j]) || (r[i] == k && r[j] in s)
  {
    if s == [] || v[k] >= v[s[0]] {
      InsertInFrontKeepsOrder(k, s, v, r);
    } else {
      var t := InsertByRating(k, s[1..], v);
      InsertKeepsOrder(k, s[1..], v, t);
      InsertBehindKeepsOrder(k, s, v, r, t);
    }
  }

  lemma InsertInFrontKeepsOrder(k: string, s: seq<string>, v: map<string, int>, r: seq<string>)
    requires k in v && Rated(s, v) && r == [k] + s
    ensures forall i, j :: 0 <= i < j < |r| && v[r[i]] == v[r[j]] ==>
              Precedes(s, r[i], r[j]) || (r[i] == k && r[j] in s)
  {
    forall i, j | 0 <= i < j < |r| && v[r[i]] == v[r[j]]
      ensures Precedes(s, r[i], r[j]) || (r[i] == k && r[j] in s)
    {
      if i > 0 {
        assert s[i - 1] == r[i] && s[j - 1] == r[j];
      } else {
        assert r[j] == s[j - 1];
      }
    }
  }

  lemma InsertBehindKeepsOrder(k: string, s: seq<string>, v: map<string, int>, r: seq<string>, t: seq<string>)
    requires k in v && Rated(s, v) && s != [] && v[k] < v[s[0]]
    requires r == [s[0]] + t && (forall x :: x in t <==> x == k || x in s[1..]) && Rated(t, v)
    requires forall i, j :: 0 <= i < j < |t| && v[t[i]] == v[t[j]] ==>
               Precedes(s[1..], t[i], t[j]) || (t[i] == k && t[j] in s[1..])
    ensures forall i, j :: 0 <= i < j < |r| && v[r[i]] == v[r[j]] ==>
              Precedes(s, r[i], r[j]) || (r[i] == k && r[j] in s)
  {
    assert s == [s[0]] + s[1..];
    forall i, j | 0 <= i < j < |r| && v[r[i]] == v[r[j]]
      ensures Precedes(s, r[i], r[j]) || (r[i] == k && r[j] in s)
    {
      if i == 0 {
        assert r[j] == t[j - 1];
        assert r[j] != k;
        assert r[j] in s[1..];
        PrecedesFromHead(s, r[j]);
      } else {
        assert r[i] == t[i - 1] && r[j] == t[j - 1];
        if Precedes(s[1..], t[i - 1], t[j - 1]) {
          PrecedesInTail(s, r[i], r[j]);
        }
      }
    }
  }

  /** The sort is stable: two names with equal ratings come out in their input order. */
  lemma {:induction false} SortIsStable(ks: seq<string>, v: map<string, int>, r: seq<string>)
    requires Rated(ks, v) && r == SortByRating(ks, v)
    ensures forall i, j :: 0 <= i < j < |r| && v[r[i]] == v[r[j]] ==> Precedes(ks, r[i], r[j])
  {
    if ks != [] {
      var rest := SortByRating(ks[1..], v);
      assert ks == [ks[0]] + ks[1..];
      assert r == InsertByRating(ks[0], rest, v);
      SortIsStable(ks[1..], v, rest);
      InsertKeepsOrder(ks[0], rest, v, r);
      forall i, j | 0 <= i < j < |r| && v[r[i]] == v[r[j]]
        ensures Precedes(ks, r[i], r[j])
      {
        StablePair(ks, v, rest, r[i], r[j]);
      }
    }
  }

  lemma StablePair(ks: seq<string>, v: map<string, int>, rest: seq<string>, a: string, b: string)
    requires ks != [] && Rated(ks, v) && Rated(rest, v)
    requires Precedes(rest, a, b) || (a == ks[0] && b in rest)
    requires forall x :: x in rest <==> x in ks[1..]
    requires forall i, j :: 0 <= i < j < |rest| && v[rest[i]] == v[rest[j]] ==> Precedes(ks[1..], rest[i], rest[j])
    requires a in v && b in v && v[a] == v[b]
    ensures Precedes(ks, a, b)
  {
    if Precedes(rest, a, b) {
      var p, q :| 0 <= p < q < |rest| && rest[p] == a && rest[q] == b;
      assert Precedes(ks[1..], rest[p], rest[q]);
      PrecedesInTail(ks, a, b);
    } else {
      PrecedesFromHead(ks, b);
    }
  }

  // ---------------------------------------------------------------------------
  // The rows

  /** `new_dict.get(name, 0)`. */
  function NewRating(k: string, nd: Dict): int {
    if k in nd.value then nd.value[k] else 0
  }

  /** The change of a name of the new list: new minus old rating, or the whole new
      rating for a name the old list does not have. */
  function Change(k: string, od: Dict, nd: Dict): int {
    if k in od.value then NewRating(k, nd) - od.value[k] else NewRating(k, nd)
  }

  /** The loop over the sorted names: one row `(name, new, change)` per name whose change
      is not zero, in the order of `names` (`PresentRows`). */
  function Present(names: seq<string>, od: Dict, nd: Dict): (p: seq<Entry>)
  {
    if names == [] then []
    else
      var k := names[|names| - 1];
      var p := Present(names[..|names| - 1], od, nd);
      var c := Change(k, od, nd);
      if c != 0 then p + [Entry(k, NewRating(k, nd), c)] else p
  }

  /** The rows the loop emits: each is a name of `names` with its new rating and its
      non-zero change; every name with a non-zero change has a row; rows follow the
      order of `names`. */
  lemma PresentRows(names: seq<string>, od: Dict, nd: Dict, p: seq<Entry>)
    requires p == Present(names, od, nd)
    ensures forall i :: 0 <= i < |p| ==>
      p[i].name in names && p[i].current == NewRating(p[i].name, nd)
      && p[i].change == Change(p[i].name, od, nd) && p[i].change != 0
    ensures forall k :: k in names && Change(k, od, nd) != 0 ==> k in EntryNames(p)
    ensures forall i, j :: 0 <= i < j < |p| ==> Precedes(names, p[i].name, p[j].name)
  {
    PresentFields(names, od, nd, p);
    PresentCovers(names, od, nd, p);
    PresentOrder(names, od, nd, p);
  }

  lemma {:induction false} PresentFields(names: seq<string>, od: Dict, nd: Dict, p: seq<Entry>)
    requires p == Present(names, od, nd)
    ensures forall i :: 0 <= i < |p| ==>
      p[i].name in names && p[i].current == NewRating(p[i].name, nd)
      && p[i].change == Change(p[i].name, od, nd) && p[i].change != 0
  {
    if names != [] {
      var pre := names[..|names| - 1];
      assert names == pre + [names[|names| - 1]];
      PresentFields(pre, od, nd, Present(pre, od, nd));
    }
  }

  lemma {:induction false} PresentCovers(names: seq<string>, od: Dict, nd: Dict, p: seq<Entry>)
    requires p == Present(names, od, nd)
    ensures forall k :: k in names && Change(k, od, nd) != 0 ==> k in EntryNames(p)
  {
    if names != [] {
      var k := names[|names| - 1];
      var pre := names[..|names| - 1];
      assert names == pre + [k];
      var p' := Present(pre, od, nd);
      PresentCovers(pre, od, nd, p');
      var c := Change(k, od, nd);
      if c != 0 {
        var e := Entry(k, NewRating(k, nd), c);
        assert p == p' + [e];
        EntryNamesAppend(p', [e]);
        assert EntryNames([e]) == [k];
      }
    }
  }

  lemma {:induction false} PresentOrder(names: seq<string>, od: Dict, nd: Dict, p: seq<Entry>)
    requires p == Present(names, od, nd)
    ensures forall i, j :: 0 <= i < j < |p| ==> Precedes(names, p[i].name, p[j].name)
  {
    if names != [] {
      var n := |names|;
      var k := names[n - 1];
      var pre := names[..n - 1];
      assert names == pre + [k];
      var p' := Present(pre, od, nd);
      PresentOrder(pre, od, nd, p');
      PresentFields(pre, od, nd, p');
      forall i, j | 0 <= i < j < |p| ensures Precedes(names, p[i].name, p[j].name) {
        if j < |p'| {
          assert p[i] == p'[i] && p[j] == p'[j];
          PrecedesInPrefix(names, n - 1, p[i].name, p[j].name);
        } else {
          assert p[i] == p'[i] && p[j].name == k;
          PrecedesToLast(names, p[i].name);
        }
      }
    }
  }

  /** The leaver comprehension: one row `(name, old, -old)` per key of `ks` missing from
      the new dict, in the order of `ks` (`LeaverRows`). */
  function Leavers(ks: seq<string>, od: Dict, nd: Dict): (l: seq<Entry>)
    requires Rated(ks, od.value)
    ensures forall i :: 0 <= i < |l| ==> l[i].name !in nd.value
  {
    if ks == [] then []
    else
      var k := ks[|ks| - 1];
      assert Rated(ks[..|ks| - 1], od.value);
      var l := Leavers(ks[..|ks| - 1], od, nd);
      if k in nd.value then l else l + [Entry(k, od.value[k], -od.value[k])]
  }

  /** Each leaver row is an old key missing from the new dict, reported with its old rating
      and minus that rating, even when it is zero; every such key has a row; the rows keep
      the order of `ks`. */
  lemma LeaverRows(ks: seq<string>, od: Dict, nd: Dict, l: seq<Entry>)
    requires Rated(ks, od.value) && l == Leavers(ks, od, nd)
    ensures forall i :: 0 <= i < |l| ==>
      l[i].name in ks && l[i].current == od.value[l[i].name] && l[i].change == -l[i].current
    ensures forall k :: k in ks && k !in nd.value ==> k in EntryNames(l)
    ensures forall i, j :: 0 <= i < j < |l| ==> Precedes(ks, l[i].name, l[j].name)
  {
    LeaverFields(ks, od, nd, l);
    LeaversCover(ks, od, nd, l);
    LeaverOrder(ks, od, nd, l);
  }

  lemma {:induction false} LeaverFields(ks: seq<string>, od: Dict, nd: Dict, l: seq<Entry>)
    requires Rated(ks, od.value) && l == Leavers(ks, od, nd)
    ensures forall i :: 0 <= i < |l| ==>
      l[i].name in ks && l[i].current == od.value[l[i].name] && l[i].change == -l[i].current
  {
    if ks != [] {
      var pre := ks[..|ks| - 1];
      assert ks == pre + [ks[|ks| - 1]];
      LeaverFields(pre, od, nd, Leavers(pre, od, nd));
    }
  }

  lemma {:induction false} LeaversCover(ks: seq<string>, od: Dict, nd: Dict, l: seq<Entry>)
    requires Rated(ks, od.value) && l == Leavers(ks, od, nd)
    ensures forall k :: k in ks && k !in nd.value ==> k in EntryNames(l)
  {
    if ks != [] {
      var k := ks[|ks| - 1];
      var pre := ks[..|ks| - 1];
      assert ks == pre + [k];
      var l' := Leavers(pre, od, nd);
      LeaversCover(pre, od, nd, l');
      if k !in nd.value {
        var e := Entry(k, od.value[k], -od.value[k]);
        assert l == l' + [e];
        EntryNamesAppend(l', [e]);
        assert EntryNames([e]) == [k];
      }
    }
  }

  lemma {:induction false} LeaverOrder(ks: seq<string>, od: Dict, nd: Dict, l: seq<Entry>)
    requires Rated(ks, od.value) && l == Leavers(ks, od, nd)
    ensures forall i, j :: 0 <= i < j < |l| ==> Precedes(ks, l[i].name, l[j].name)
  {
    if ks != [] {
      var n := |ks|;
      var k := ks[n - 1];
      var pre := ks[..n - 1];
      assert ks == pre + [k];
      var l' := Leavers(pre, od, nd);
      LeaverOrder(pre, od, nd, l');
      LeaverFields(pre, od, nd, l');
      forall i, j | 0 <= i < j < |l| ensures Precedes(ks, l[i].name, l[j].name) {
        if j < |l'| {
          assert l[i] == l'[i] && l[j] == l'[j];
          PrecedesInPrefix(ks, n - 1, l[i].name, l[j].name);
        } else {
          assert l[i] == l'[i] && l[j].name == k;
          PrecedesToLast(ks, l[i].name);
        }
      }
    }
  }

  /** The rows for two dicts: the present names by new rating (highest first) with zero
      changes dropped, then the leavers. */
  function DeltaOf(od: Dict, nd: Dict): seq<Entry>
    requires Rated(od.keys, od.value) && Rated(nd.keys, nd.value)
  {
    Present(SortByRating(nd.keys, nd.value), od, nd) + Leavers(od.keys, od, nd)
  }

  /** `get_member_delta` of frontend.py: the rows for `dict(old)` and `dict(new)`. */
  function MemberDelta(oldMembers: seq<Member>, newMembers: seq<Member>): seq<Entry>
  {
    DeltaOf(DictOf(oldMembers), DictOf(newMembers))
  }

  /** `get_member_delta` of utils.py and afi_tracker/utils/frontend.py: the same, except
      that an empty old or new list gives no rows at all. */
  function GuardedMemberDelta(oldMembers: seq<Member>, newMembers: seq<Member>): seq<Entry>
  {
    if oldMembers == [] || newMembers == [] then [] else MemberDelta(oldMembers, newMembers)
  }

  // ---------------------------------------------------------------------------
  // What `get_member_delta` promises, stated for any two dicts `dict(...)` can build

  /** Every row is of one of two kinds. A name of the new dict carries its new rating and
      a non-zero change: new minus old rating, or the whole new rating for a joiner. A
      name only in the old dict (a leaver) carries its old rating and minus that rating. */
  lemma DeltaRows(od: Dict, nd: Dict)
    requires WellFormed(od) && WellFormed(nd)
    ensures var r := DeltaOf(od, nd);
      forall i :: 0 <= i < |r| ==>
        if r[i].name in nd.value then
          r[i].current == nd.value[r[i].name]
          && r[i].change == (if r[i].name in od.value then r[i].current - od.value[r[i].name] else r[i].current)
          && r[i].change != 0
        else
          r[i].name in od.value && r[i].current == od.value[r[i].name] && r[i].change == -r[i].current
  {
    var names := SortByRating(nd.keys, nd.value);
    var p, l := Present(names, od, nd), Leavers(od.keys, od, nd);
    PresentRows(names, od, nd, p);
    LeaverRows(od.keys, od, nd, l);
    var r := p + l;
    forall i | 0 <= i < |r|
      ensures if r[i].name in nd.value then
          r[i].current == nd.value[r[i].name]
          && r[i].change == (if r[i].name in od.value then r[i].current - od.value[r[i].name] else r[i].current)
          && r[i].change != 0
        else
          r[i].name in od.value && r[i].current == od.value[r[i].name] && r[i].change == -r[i].current
    {
      if i < |p| {
        assert r[i] == p[i];
      } else {
        assert r[i] == l[i - |p|];
      }
    }
  }

  /** Nothing is lost: every name of the new dict whose change is not zero has a row, and
      so has every leaver, whatever its old rating. */
  lemma DeltaCoversChanges(od: Dict, nd: Dict)
    requires WellFormed(od) && WellFormed(nd)
    ensures var r := DeltaOf(od, nd);
      && (forall k :: k in nd.value && Change(k, od, nd) != 0 ==> k in EntryNames(r))
      && (forall k :: k in od.value && k !in nd.value ==> k in EntryNames(r))
  {
    var names := SortByRating(nd.keys, nd.value);
    var p, l := Present(names, od, nd), Leavers(od.keys, od, nd);
    PresentRows(names, od, nd, p);
    LeaverRows(od.keys, od, nd, l);
    EntryNamesAppend(p, l);
  }

  lemma EntryNamesAppend(p: seq<Entry>, l: seq<Entry>)
    ensures EntryNames(p + l) == EntryNames(p) + EntryNames(l)
  {
  }

  /** Every leaver comes after every name of the new dict, and the leavers keep the old
      dict's key order (the order of first appearance in the old list). */
  lemma DeltaLeaversLast(od: Dict, nd: Dict)
    requires WellFormed(od) && WellFormed(nd)
    ensures var r := DeltaOf(od, nd);
      && (forall i, j :: 0 <= i < j < |r| && r[i].name !in nd.value ==> r[j].name !in nd.value)
      && (forall i, j :: 0 <= i < j < |r| && r[i].name !in nd.value ==> Precedes(od.keys, r[i].name, r[j].name))
  {
    var names := SortByRating(nd.keys, nd.value);
    var p, l := Present(names, od, nd), Leavers(od.keys, od, nd);
    PresentRows(names, od, nd, p);
    LeaverRows(od.keys, od, nd, l);
    assert forall i :: 0 <= i < |p| ==> p[i].name in nd.value;
    TailAfterHead(p, l, nd.value, od.keys);
  }

  /** Rows whose names are keys of `v`, then rows whose names are not and that follow `ks`. */
  lemma TailAfterHead(p: seq<Entry>, l: seq<Entry>, v: map<string, int>, ks: seq<string>)
    requires forall i :: 0 <= i < |p| ==> p[i].name in v
    requires forall i :: 0 <= i < |l| ==> l[i].name !in v
    requires forall i, j :: 0 <= i < j < |l| ==> Precedes(ks, l[i].name, l[j].name)
    ensures var r := p + l;
      && (forall i, j :: 0 <= i < j < |r| && r[i].name !in v ==> r[j].name !in v)
      && (forall i, j :: 0 <= i < j < |r| && r[i].name !in v ==> Precedes(ks, r[i].name, r[j].name))
  {
    var r := p + l;
    forall i, j | 0 <= i < j < |r| && r[i].name !in v
      ensures r[j].name !in v && Precedes(ks, r[i].name, r[j].name)
    {
      if i >= |p| {
        assert r[i] == l[i - |p|] && r[j] == l[j - |p|];
      }
    }
  }

  /** The names of the new dict run from the highest new rating down; equal ratings keep
      the new dict's key order (the order of first appearance in the new list). */
  lemma DeltaRatingOrder(od: Dict, nd: Dict)
    requires WellFormed(od) && WellFormed(nd)
    ensures var r := DeltaOf(od, nd);
      && (forall i, j :: 0 <= i < j < |r| && r[j].name in nd.value ==> r[i].current >= r[j].current)
      && (forall i, j :: 0 <= i < j < |r| && r[j].name in nd.value && r[i].current == r[j].current
            ==> Precedes(nd.keys, r[i].name, r[j].name))
  {
    var v := nd.value;
    var names := SortByRating(nd.keys, v);
    var p, l := Present(names, od, nd), Leavers(od.keys, od, nd);
    PresentRows(names, od, nd, p);
    LeaverRows(od.keys, od, nd, l);
    SortIsDescending(nd.keys, v);
    SortIsStable(nd.keys, v, names);
    var r := p + l;
    forall i, j | 0 <= i < j < |r| && r[j].name in v
      ensures r[i].current >= r[j].current
      ensures r[i].current == r[j].current ==> Precedes(nd.keys, r[i].name, r[j].name)
    {
      assert r[i] == p[i] && r[j] == p[j];
      assert p[i].name in names && p[j].name in names;
      assert Precedes(names, p[i].name, p[j].name);
      var a, b :| 0 <= a < b < |names| && names[a] == p[i].name && names[b] == p[j].name;
      assert v[names[a]] >= v[names[b]];
    }
  }

  lemma {:induction false} InsertKeepsDistinct(k: string, s: seq<string>, v: map<string, int>)
    requires k in v && Rated(s, v) && Distinct(s) && k !in s
    ensures Distinct(InsertByRating(k, s, v))
  {
    if s != [] && v[k] < v[s[0]] {
      assert s == [s[0]] + s[1..];
      assert Distinct(s[1..]) && k !in s[1..];
      InsertKeepsDistinct(k, s[1..], v);
      var t := InsertByRating(k, s[1..], v);
      assert s[0] !in t;
      assert InsertByRating(k, s, v) == [s[0]] + t;
    } else {
      assert InsertByRating(k, s, v) == [k] + s;
    }
  }

  lemma {:induction false} SortKeepsDistinct(ks: seq<string>, v: map<string, int>)
    requires Rated(ks, v) && Distinct(ks)
    ensures Distinct(SortByRating(ks, v))
  {
    if ks != [] {
      assert ks == [ks[0]] + ks[1..];
      assert Distinct(ks[1..]) && ks[0] !in ks[1..];
      SortKeepsDistinct(ks[1..], v);
      InsertKeepsDistinct(ks[0], SortByRating(ks[1..], v), v);
    }
  }

  /** No name gets two rows. */
  lemma DeltaNamesDistinct(od: Dict, nd: Dict)
    requires WellFormed(od) && WellFormed(nd)
    ensures Distinct(EntryNames(DeltaOf(od, nd)))
  {
    var names := SortByRating(nd.keys, nd.value);
    var p, l := Present(names, od, nd), Leavers(od.keys, od, nd);
    PresentRows(names, od, nd, p);
    LeaverRows(od.keys, od, nd, l);
    SortKeepsDistinct(nd.keys, nd.value);
    var r := p + l;
    var ns := EntryNames(r);
    forall i, j | 0 <= i < j < |ns| ensures ns[i] != ns[j] {
      if j < |p| {
        assert ns[i] == p[i].name && ns[j] == p[j].name;
        assert Precedes(names, p[i].name, p[j].name);
      } else if i >= |p| {
        assert ns[i] == l[i - |p|].name && ns[j] == l[j - |p|].name;
        assert Precedes(od.keys, l[i - |p|].name, l[j - |p|].name);
      } else {
        assert ns[i] == p[i].name && p[i].name in names;
        assert ns[j] == l[j - |p|].name;
      }
    }
  }

  lemma {:induction false} PresentNoChanges(names: seq<string>, od: Dict, nd: Dict)
    requires forall k :: k in names ==> Change(k, od, nd) == 0
    ensures Present(names, od, nd) == []
  {
    if names != [] {
      assert forall k :: k in names[..|names| - 1] ==> k in names;
      PresentNoChanges(names[..|names| - 1], od, nd);
    }
  }

  lemma {:induction false} LeaversNoneMissing(ks: seq<string>, od: Dict, nd: Dict)
    requires Rated(ks, od.value)
    requires forall k :: k in ks ==> k in nd.value
    ensures Leavers(ks, od, nd) == []
  {
    if ks != [] {
      assert forall k :: k in ks[..|ks| - 1] ==> k in ks;
      LeaversNoneMissing(ks[..|ks| - 1], od, nd);
    }
  }

  /** Comparing a dict with itself reports nothing: every change is zero and nobody left. */
  lemma IdenticalDictsGiveNoRows(d: Dict)
    requires WellFormed(d)
    ensures DeltaOf(d, d) == []
  {
    PresentNoChanges(SortByRating(d.keys, d.value), d, d);
    LeaversNoneMissing(d.keys, d, d);
  }

  lemma {:induction false} LeaversOfEmptyDict(ks: seq<string>, od: Dict)
    requires Rated(ks, od.value)
    ensures var l := Leavers(ks, od, Dict([], map[]));
      |l| == |ks| && forall i :: 0 <= i < |ks| ==> l[i] == Entry(ks[i], od.value[ks[i]], -od.value[ks[i]])
  {
    if ks != [] {
      assert Rated(ks[..|ks| - 1], od.value);
      LeaversOfEmptyDict(ks[..|ks| - 1], od);
    }
  }

  /** Without the guard (frontend.py), an empty new list reports every old member as a
      leaver `(name, old, -old)`, in the old dict's order. */
  lemma EmptyNewDictReportsAllLeavers(od: Dict)
    requires WellFormed(od)
    ensures var r := DeltaOf(od, Dict([], map[]));
      |r| == |od.keys| && forall i :: 0 <= i < |r| ==> r[i] == Entry(od.keys[i], od.value[od.keys[i]], -od.value[od.keys[i]])
  {
    var nd := Dict([], map[]);
    var l := Leavers(od.keys, od, nd);
    assert SortByRating(nd.keys, nd.value) == [];
    assert DeltaOf(od, nd) == [] + l;
    assert [] + l == l;
    LeaversOfEmptyDict(od.keys, od);
  }

  /** Without the guard (frontend.py), an empty old list reports every name of the new
      dict whose rating is not zero, with its rating as its change, and no leavers. */
  lemma EmptyOldDictReportsJoiners(nd: Dict)
    requires WellFormed(nd)
    ensures var r := DeltaOf(Dict([], map[]), nd);
      && (forall i :: 0 <= i < |r| ==> r[i].name in nd.value && r[i].current == nd.value[r[i].name]
                                          && r[i].change == r[i].current && r[i].change != 0)
      && (forall k :: k in nd.value && nd.value[k] != 0 ==> k in EntryNames(r))
  {
    var od := Dict([], map[]);
    var names := SortByRating(nd.keys, nd.value);
    var p := Present(names, od, nd);
    PresentRows(names, od, nd, p);
    assert Leavers([], od, nd) == [];
    assert DeltaOf(od, nd) == p;
    forall k | k in nd.value && nd.value[k] != 0 ensures k in EntryNames(p) {
      assert k in names;
    }
  }

  /** The guarded copies (utils.py, afi_tracker/utils/frontend.py) return `[]` when either
      list is empty and otherwise exactly what the unguarded one (frontend.py) returns. */
  lemma GuardedAgreesWhenBothNonEmpty(oldMembers: seq<Member>, newMembers: seq<Member>)
    ensures oldMembers == [] || newMembers == [] ==> GuardedMemberDelta(oldMembers, newMembers) == []
    ensures oldMembers != [] && newMembers != [] ==>
      GuardedMemberDelta(oldMembers, newMembers) == MemberDelta(oldMembers, newMembers)
  {
  }

  lemma {:induction false} PresentKeepsAll(names: seq<string>, od: Dict, nd: Dict)
    requires forall k :: k in names ==> Change(k, od, nd) != 0
    ensures |Present(names, od, nd)| == |names|
  {
    if names != [] {
      assert forall k :: k in names[..|names| - 1] ==> k in names;
      PresentKeepsAll(names[..|names| - 1], od, nd);
    }
  }

  lemma {:induction false} LeaversAllKept(ks: seq<string>, od: Dict, nd: Dict)
    requires Rated(ks, od.value)
    requires forall k :: k in ks ==> k !in nd.value
    ensures |Leavers(ks, od, nd)| == |ks|
  {
    if ks != [] {
      assert forall k :: k in ks[..|ks| - 1] ==> k in ks;
      LeaversAllKept(ks[..|ks| - 1], od, nd);
    }
  }

  /** Two dicts with no name in common and no zero rating in the new one give one row per
      key of either. */
  lemma DisjointDictsReportEveryone(od: Dict, nd: Dict)
    requires WellFormed(od) && WellFormed(nd)
    requires forall k :: k in nd.value ==> k !in od.value && nd.value[k] != 0
    ensures |DeltaOf(od, nd)| == |od.keys| + |nd.keys|
  {
    var names := SortByRating(nd.keys, nd.value);
    assert |names| == |nd.keys| by {
      assert |multiset(names)| == |multiset(nd.keys)|;
    }
    PresentKeepsAll(names, od, nd);
    LeaversAllKept(od.keys, od, nd);
  }

  lemma ExampleOldDict()
    ensures DictOf([Member("A", 100), Member("B", 50)]) == Dict(["A", "B"], map["A" := 100, "B" := 50])
  {
    var ms := [Member("A", 100), Member("B", 50)];
    assert ms[..1] == [Member("A", 100)] && ms[..1][..0] == [];
    assert "A" != "B";
  }

  lemma ExampleNewDict()
    ensures DictOf([Member("A", 120), Member("C", 10)]) == Dict(["A", "C"], map["A" := 120, "C" := 10])
  {
    var ms := [Member("A", 120), Member("C", 10)];
    assert ms[..1] == [Member("A", 120)] && ms[..1][..0] == [];
    assert "A" != "C";
  }

  lemma ExampleOrder(nd: Dict)
    requires nd == Dict(["A", "C"], map["A" := 120, "C" := 10])
    ensures SortByRating(nd.keys, nd.value) == ["A", "C"]
  {
    assert nd.keys[1..] == ["C"] && ["C"][1..] == [];
  }

  lemma ExampleRows(od: Dict, nd: Dict)
    requires od == Dict(["A", "B"], map["A" := 100, "B" := 50])
    requires nd == Dict(["A", "C"], map["A" := 120, "C" := 10])
    ensures Present(["A", "C"], od, nd) == [Entry("A", 120, 20), Entry("C", 10, 10)]
  {
    var names := ["A", "C"];
    assert names[..1] == ["A"] && names[..1][..0] == [];
  }

  lemma ExampleLeavers(od: Dict, nd: Dict)
    requires od == Dict(["A", "B"], map["A" := 100, "B" := 50])
    requires nd == Dict(["A", "C"], map["A" := 120, "C" := 10])
    ensures Leavers(od.keys, od, nd) == [Entry("B", 50, -50)]
  {
    assert "B" != "A" && "B" != "C";
    assert od.keys[..1] == ["A"] && od.keys[..1][..0] == [];
  }

  /** The worked example: old {A: 100, B: 50}, new {A: 120, C: 10} gives A (+20), then
      the joiner C (+10), then the leaver B (-50). */
  lemma WorkedExample()
    ensures MemberDelta([Member("A", 100), Member("B", 50)], [Member("A", 120), Member("C", 10)])
         == [Entry("A", 120, 20), Entry("C", 10, 10), Entry("B", 50, -50)]
  {
    ExampleOldDict();
    ExampleNewDict();
    var od := Dict(["A", "B"], map["A" := 100, "B" := 50]);
    var nd := Dict(["A", "C"], map["A" := 120, "C" := 10]);
    ExampleOrder(nd);
    ExampleRows(od, nd);
    ExampleLeavers(od, nd);
  }

  // ---------------------------------------------------------------------------
  // The loops

  /** One turn of the loop over the sorted names adds at most the row of `names[i]`. */
  lemma PresentStep(names: seq<string>, i: nat, od: Dict, nd: Dict)
    requires i < |names|
    ensures var k := names[i];
      Present(names[..i + 1], od, nd)
      == Present(names[..i], od, nd)
         + (if Change(k, od, nd) != 0 then [Entry(k, NewRating(k, nd), Change(k, od, nd))] else [])
  {
    assert names[..i + 1][..i] == names[..i];
  }

  /** The loop of `get_member_delta` over the sorted new names, appending one row per
      non-zero change, then the leavers appended. */
  method ComputeDelta(od: Dict, nd: Dict) returns (entries: seq<Entry>)
    requires Rated(od.keys, od.value) && Rated(nd.keys, nd.value)
    ensures entries == DeltaOf(od, nd)
  {
    var names := SortByRating(nd.keys, nd.value);
    entries := [];
    var i := 0;
    while i < |names|
      invariant 0 <= i <= |names|
      invariant entries == Present(names[..i], od, nd)
    {
      var name := names[i];
      PresentStep(names, i, od, nd);
      var newRating := if name in nd.value then nd.value[name] else 0;
      var change := if name in od.value then newRating - od.value[name] else newRating;
      assert newRating == NewRating(name, nd) && change == Change(name, od, nd);
      if change != 0 {
        entries := entries + [Entry(name, newRating, change)];
      }
      i := i + 1;
    }
    assert names[..i] == names;
    entries := entries + Leavers(od.keys, od, nd);
  }

  /** frontend.py `get_member_delta`: the two dicts, then the loop. */
  method ComputeMemberDelta(oldMembers: seq<Member>, newMembers: seq<Member>) returns (entries: seq<Entry>)
    ensures entries == MemberDelta(oldMembers, newMembers)
  {
    var od, nd := DictOf(oldMembers), DictOf(newMembers);
    entries := ComputeDelta(od, nd);
  }

  /** utils.py:21-64: the guard, then the same loop. */
  method ComputeGuardedMemberDelta(oldMembers: seq<Member>, newMembers: seq<Member>) returns (entries: seq<Entry>)
    ensures entries == GuardedMemberDelta(oldMembers, newMembers)
  {
    if oldMembers == [] || newMembers == [] {
      return [];
    }
    entries := ComputeMemberDelta(oldMembers, newMembers);
  }
}
