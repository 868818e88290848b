/** Small facts about sequences that loops over prefixes need. */
module Seqs {
  import opened Strings

  lemma PrefixNext<T>(s: seq<T>, i: nat)
    requires i < |s|
    ensures s[..i + 1] == s[..i] + [s[i]] && s[..i + 1][..i] == s[..i]
  {
  }

  lemma AppendOne<T>(s: seq<T>, x: T)
    ensures (s + [x])[..|s|] == s && (s + [x])[|s|] == x
  {
  }

  lemma SliceOfSlice<T>(s: seq<T>, a: nat, b: nat, c: nat, d: nat)
    requires a <= b <= |s| && c <= d <= b - a
    ensures s[a..b][c..d] == s[a + c..a + d]
  {
    var x, y := s[a..b][c..d], s[a + c..a + d];
    forall i | 0 <= i < d - c ensures x[i] == y[i] {
      assert x[i] == s[a..b][c + i];
    }
  }

  lemma SlicesJoin<T>(s: seq<T>, a: nat, b: nat, c: nat)
    requires a <= b <= c <= |s|
    ensures s[a..b] + s[b..c] == s[a..c] && s[a..b] + s[b..] == s[a..]
  {
  }

  lemma InPrefix<T>(s: seq<T>, i: nat)
    requires i <= |s|
    ensures forall x :: x in s[..i] ==> x in s
  {
  }

  lemma WholePrefix<T>(s: seq<T>)
    ensures s[..|s|] == s
  {
  }

  ghost function Elements(s: seq<string>): set<string> {
    set a | a in s
  }

  function Map<A, B>(f: A -> B, s: seq<A>): (r: seq<B>)
    ensures |r| == |s| && forall i :: 0 <= i < |s| ==> r[i] == f(s[i])
  {
    seq(|s|, i requires 0 <= i < |s| => f(s[i]))
  }

  function Reverse<T>(s: seq<T>): (r: seq<T>)
    ensures |r| == |s|
  {
    if |s| == 0 then [] else Reverse(s[1..]) + [s[0]]
  }

  // ------------------------------------------------------- selecting in order

  ghost predicate Places(at: seq<nat>, k: nat) {
    k in at
  }

  ghost predicate Increasing(at: seq<nat>) {
    forall i, j :: 0 <= i < j < |at| ==> at[i] < at[j]
  }

  ghost predicate MadeAt<A, B>(s: seq<A>, f: A -> Option<B>, k: nat, b: B) {
    k < |s| && f(s[k]) == Some(b)
  }

  /** `r` is what `f` makes of those elements of `s` for which it makes something, in order:
      `at` are their positions. */
  ghost predicate SelectedAt<A, B>(s: seq<A>, f: A -> Option<B>, r: seq<B>, at: seq<nat>) {
    |at| == |r| && Increasing(at)
    && (forall i :: 0 <= i < |at| ==> MadeAt(s, f, at[i], r[i]))
    && forall k: nat :: k < |s| && f(s[k]).Some? ==> Places(at, k)
  }

  ghost predicate Selected<A, B>(s: seq<A>, f: A -> Option<B>, r: seq<B>) {
    exists at :: SelectedAt(s, f, r, at)
  }

  lemma PlacesLast(at: seq<nat>, x: nat)
    ensures Places(at + [x], x) && forall k :: Places(at, k) ==> Places(at + [x], k)
  {
    assert (at + [x])[|at|] == x;
  }

  lemma SelectedNone<A, B>(f: A -> Option<B>)
    ensures Selected([], f, [])
  {
    assert SelectedAt([], f, [], []);
  }

  /** One more element at the end. */
  lemma SelectedNext<A, B>(s: seq<A>, f: A -> Option<B>, r: seq<B>, x: A)
    requires Selected(s, f, r)
    ensures Selected(s + [x], f, r + (if f(x).Some? then [f(x).value] else []))
  {
    var at: seq<nat> :| SelectedAt(s, f, r, at);
    hide Places;
    if f(x).Some? {
      PlacesLast(at, |s|);
      forall i | 0 <= i < |at| ensures at[i] < |s| { assert MadeAt(s, f, at[i], r[i]); }
      forall i | 0 <= i < |at| + 1
        ensures MadeAt(s + [x], f, (at + [|s|])[i], (r + [f(x).value])[i])
      {
        assert i < |at| ==> MadeAt(s, f, at[i], r[i]);
      }
      assert SelectedAt(s + [x], f, r + [f(x).value], at + [|s|]);
    } else {
      assert r + [] == r;
      forall i | 0 <= i < |at| ensures MadeAt(s + [x], f, at[i], r[i]) { assert MadeAt(s, f, at[i], r[i]); }
      assert SelectedAt(s + [x], f, r, at);
    }
  }

  /** The same for a function that takes its last element off. */
  lemma SelectedLast<A, B>(s: seq<A>, f: A -> Option<B>, r: seq<B>)
    requires |s| > 0 && Selected(s[..|s| - 1], f, r)
    ensures Selected(s, f, r + (if f(s[|s| - 1]).Some? then [f(s[|s| - 1]).value] else []))
  {
    SelectedNext(s[..|s| - 1], f, r, s[|s| - 1]);
    assert s[..|s| - 1] + [s[|s| - 1]] == s;
  }

  /** And for one that takes its first. */
  lemma SelectedFirst<A, B>(s: seq<A>, f: A -> Option<B>, r: seq<B>)
    requires |s| > 0 && Selected(s[1..], f, r)
    ensures Selected(s, f, (if f(s[0]).Some? then [f(s[0]).value] else []) + r)
  {
    var at: seq<nat> :| SelectedAt(s[1..], f, r, at);
    var later: seq<nat> := seq(|at|, i requires 0 <= i < |at| => at[i] + 1);
    LaterPositions(s, f, r, at, later);
    hide Places, MadeAt;
    if f(s[0]).Some? {
      FirstPosition(s, f, r, later);
    } else {
      assert [] + r == r;
      forall k: nat | k < |s| && f(s[k]).Some? ensures Places(later, k) { assert k > 0; }
      assert SelectedAt(s, f, r, later);
    }
  }

  lemma LaterPositions<A, B>(s: seq<A>, f: A -> Option<B>, r: seq<B>, at: seq<nat>, later: seq<nat>)
    requires |s| > 0 && SelectedAt(s[1..], f, r, at)
    requires |later| == |at| && forall i :: 0 <= i < |at| ==> later[i] == at[i] + 1
    ensures Increasing(later) && forall i :: 0 <= i < |later| ==> MadeAt(s, f, later[i], r[i])
    ensures forall k: nat :: 0 < k < |s| && f(s[k]).Some? ==> Places(later, k)
  {
    hide Places;
    forall i | 0 <= i < |later| ensures MadeAt(s, f, later[i], r[i]) { assert MadeAt(s[1..], f, at[i], r[i]); }
    forall k: nat | 0 < k < |s| && f(s[k]).Some? ensures Places(later, k) {
      var h := k - 1;
      assert s[1..][h] == s[k];
      ShiftedPlace(at, later, h);
    }
  }

  lemma ShiftedPlace(at: seq<nat>, later: seq<nat>, h: nat)
    requires Places(at, h) && |later| == |at| && forall i :: 0 <= i < |at| ==> later[i] == at[i] + 1
    ensures Places(later, h + 1)
  {
    var i :| 0 <= i < |at| && at[i] == h;
    assert later[i] == h + 1;
  }

  lemma FirstPosition<A, B>(s: seq<A>, f: A -> Option<B>, r: seq<B>, later: seq<nat>)
    requires |s| > 0 && f(s[0]).Some? && |later| == |r| && Increasing(later)
    requires forall i :: 0 <= i < |later| ==> MadeAt(s, f, later[i], r[i]) && later[i] > 0
    requires forall k: nat :: 0 < k < |s| && f(s[k]).Some? ==> Places(later, k)
    ensures Selected(s, f, [f(s[0]).value] + r)
  {
    var more: seq<nat> := [0] + later;
    var all := [f(s[0]).value] + r;
    PlacesFirst(later);
    hide Places;
    forall i | 0 <= i < |more| ensures MadeAt(s, f, more[i], all[i]) {
      if i > 0 {
        var h := i - 1;
        assert more[i] == later[h] && all[i] == r[h];
      }
    }
    assert SelectedAt(s, f, all, more);
  }

  lemma PlacesFirst(later: seq<nat>)
    ensures Places([0] + later, 0) && forall k :: Places(later, k) ==> Places([0] + later, k)
  {
    assert ([0] + later)[0] == 0;
  }

  // ------------------------------------------------------------ concatenation

  function Flatten<A>(parts: seq<seq<A>>): seq<A> {
    if |parts| == 0 then [] else Flatten(parts[..|parts| - 1]) + parts[|parts| - 1]
  }

  /** Element `i` of part `k` comes after all elements of the parts before it. */
  lemma {:induction false} FlattenAt<A>(parts: seq<seq<A>>, k: nat, i: nat)
    requires k < |parts| && i < |parts[k]|
    ensures |Flatten(parts[..k])| + i < |Flatten(parts)| && Flatten(parts)[|Flatten(parts[..k])| + i] == parts[k][i]
    decreases |parts|
  {
    var n := |parts| - 1;
    if k < n {
      FlattenAt(parts[..n], k, i);
      assert parts[..n][..k] == parts[..k];
    }
  }
}
