/** Strings as Go orders and sorts them, and the few text helpers the parsers and
    the debugger share.  Dafny's `char` order is code-point order, which on valid
    UTF-8 is the byte order Go's `sort.Strings` uses. */
module Strings {

  datatype Option<+T> = None | Some(value: T)

  // ---------------------------------------------------------------- ordering

  /** Lexicographic order. */
  predicate Le(a: string, b: string) {
    |a| == 0 || (|b| > 0 && (a[0] < b[0] || (a[0] == b[0] && Le(a[1..], b[1..]))))
  }

  lemma LeTotal(a: string, b: string)
    ensures Le(a, b) || Le(b, a)
  {
    if |a| > 0 && |b| > 0 { LeTotal(a[1..], b[1..]); }
  }

  lemma {:induction false} LeAntisymmetric(a: string, b: string)
    requires Le(a, b) && Le(b, a)
    ensures a == b
  {
    if |a| > 0 && |b| > 0 {
      LeAntisymmetric(a[1..], b[1..]);
      assert a == [a[0]] + a[1..] && b == [b[0]] + b[1..];
    }
  }

  lemma {:induction false} LeTransitive(a: string, b: string, c: string)
    requires Le(a, b) && Le(b, c)
    ensures Le(a, c)
  {
    if |a| > 0 && a[0] == b[0] == c[0] { LeTransitive(a[1..], b[1..], c[1..]); }
  }

  predicate Sorted(s: seq<string>) {
    forall i, j :: 0 <= i < j < |s| ==> Le(s[i], s[j])
  }

  function Insert(x: string, s: seq<string>): (r: seq<string>)
    requires Sorted(s)
    ensures Sorted(r)
    ensures multiset(r) == multiset(s) + multiset{x}
  {
    if |s| == 0 then [x]
    else if Le(x, s[0]) then
      InsertFront(x, s);
      assert multiset([x] + s) == multiset{x} + multiset(s);
      [x] + s
    else
      LeTotal(x, s[0]);
      assert s == [s[0]] + s[1..];
      var t := Insert(x, s[1..]);
      InsertBehind(x, s, t);
      [s[0]] + t
  }

  lemma InsertFront(x: string, s: seq<string>)
    requires Sorted(s) && |s| > 0 && Le(x, s[0])
    ensures Sorted([x] + s)
  {
    forall j | 0 <= j < |s| ensures Le(x, s[j]) {
      if j > 0 { LeTransitive(x, s[0], s[j]); }
    }
  }

  lemma InsertBehind(x: string, s: seq<string>, t: seq<string>)
    requires Sorted(s) && |s| > 0 && Le(s[0], x)
    requires Sorted(t) && multiset(t) == multiset(s[1..]) + multiset{x}
    ensures Sorted([s[0]] + t)
  {
    forall j | 0 <= j < |t| ensures Le(s[0], t[j]) {
      assert t[j] in multiset(t);
      if t[j] != x { assert t[j] in s[1..]; }
    }
  }

  /** `sort.Strings`: the result is ordered and has exactly the same elements. */
  function Sort(s: seq<string>): (r: seq<string>)
    ensures Sorted(r)
    ensures multiset(r) == multiset(s)
  {
    if |s| == 0 then [] else
      assert s == [s[0]] + s[1..];
      Insert(s[0], Sort(s[1..]))
  }

  /** A sorted sequence is determined by its elements, so sorting erases whatever
      order a Go map happened to be iterated in. */
  lemma {:induction false} SortedUnique(a: seq<string>, b: seq<string>)
    requires Sorted(a) && Sorted(b) && multiset(a) == multiset(b)
    ensures a == b
  {
    assert |a| == |multiset(a)| == |multiset(b)| == |b|;
    if |a| > 0 {
      hide Le;
      SameFirst(a, b);
      MultisetTail(a);
      MultisetTail(b);
      SortedUnique(a[1..], b[1..]);
      assert a == [a[0]] + a[1..] && b == [b[0]] + b[1..];
    }
  }

  lemma SameFirst(a: seq<string>, b: seq<string>)
    requires Sorted(a) && Sorted(b) && multiset(a) == multiset(b) && |a| > 0 && |b| > 0
    ensures a[0] == b[0]
  {
    hide Le;
    assert a[0] in multiset(b) && b[0] in multiset(a);
    SortedHead(a, b[0]);
    SortedHead(b, a[0]);
    LeAntisymmetric(a[0], b[0]);
  }

  lemma MultisetTail(a: seq<string>)
    requires |a| > 0
    ensures multiset(a[1..]) == multiset(a) - multiset{a[0]}
  {
    assert a == [a[0]] + a[1..];
  }

  /** `names` lists `s` in ascending order, each name once. */
  ghost predicate Lists(names: seq<string>, s: set<string>) {
    Sorted(names) && multiset(names) == multiset(s)
  }

  lemma SortedHead(a: seq<string>, x: string)
    requires Sorted(a) && |a| > 0 && x in a
    ensures Le(a[0], x)
  {
    var i :| 0 <= i < |a| && a[i] == x;
    if i == 0 { LeTotal(x, x); }
  }

  /** Without repetitions, the multiset of a sequence is its set. */
  lemma {:induction false} MultisetOfDistinct(s: seq<string>)
    requires forall i, j :: 0 <= i < j < |s| ==> s[i] != s[j]
    ensures multiset(s) == multiset(set x | x in s)
  {
    if |s| > 0 {
      var t := s[1..];
      MultisetOfDistinct(t);
      assert s == [s[0]] + t;
      assert (set x | x in s) == {s[0]} + (set x | x in t);
      assert s[0] !in t;
    }
  }

  // -------------------------------------------------------------------- text

  /** `unicode.IsSpace`. */
  predicate IsSpace(c: char) {
    c in {'\t', '\n', '\U{000B}', '\U{000C}', '\r', ' ', '\U{0085}', '\U{00A0}', '\U{1680}',
          '\U{2028}', '\U{2029}', '\U{202F}', '\U{205F}', '\U{3000}'}
    || '\U{2000}' <= c <= '\U{200A}'
  }

  /** `strings.TrimSpace`. */
  function TrimSpace(s: string): string {
    TrimRight(TrimLeft(s))
  }

  function TrimLeft(s: string): string {
    if |s| > 0 && IsSpace(s[0]) then TrimLeft(s[1..]) else s
  }

  function TrimRight(s: string): string {
    if |s| > 0 && IsSpace(s[|s| - 1]) then TrimRight(s[..|s| - 1]) else s
  }

  /** `unicode.ToLower` as far as it can produce an ASCII letter: the Kelvin sign and the
      dotted capital I are the only other characters that lower to one. */
  function ToLowerChar(c: char): char {
    if 'A' <= c <= 'Z' then c + ' '
    else if c == '\U{212A}' then 'k'
    else if c == '\U{0130}' then 'i'
    else c
  }

  function ToLower(s: string): (r: string)
  {
    seq(|s|, i requires 0 <= i < |s| => ToLowerChar(s[i]))
  }

  // ------------------------------------------------------ what the order is

  /** `a` and `b` agree up to `i`, where `a` ends or has the smaller character. */
  ghost predicate Smaller(a: string, b: string, i: nat) {
    i <= |a| && i <= |b| && a[..i] == b[..i] && (i == |a| || (i < |b| && a[i] < b[i]))
  }

  lemma HeadsFirst(a: string, b: string, i: nat)
    requires Smaller(a, b, i) && |a| > 0
    ensures |b| > 0 && (a[0] == b[0] || (i == 0 && a[0] < b[0]))
  {
    if i > 0 { assert a[0] == a[..i][0] && b[0] == b[..i][0]; }
  }

  /** Lexicographic order: a prefix first, otherwise by the first different character. */
  lemma {:induction false} LeIsLexicographic(a: string, b: string)
    ensures Le(a, b) <==> exists i: nat :: Smaller(a, b, i)
  {
    if |a| == 0 {
      assert Smaller(a, b, 0);
    } else if |b| > 0 && a[0] == b[0] {
      LeIsLexicographic(a[1..], b[1..]);
      if i: nat :| Smaller(a[1..], b[1..], i) {
        assert a[..i + 1] == [a[0]] + a[1..][..i] && b[..i + 1] == [b[0]] + b[1..][..i];
        assert Smaller(a, b, i + 1);
      }
      if i: nat :| Smaller(a, b, i) {
        if i > 0 {
          assert a[1..][..i - 1] == a[..i][1..] && b[1..][..i - 1] == b[..i][1..];
          assert Smaller(a[1..], b[1..], i - 1);
        }
      }
    } else {
      if |b| > 0 && a[0] < b[0] { assert Smaller(a, b, 0); }
      forall i: nat | Smaller(a, b, i) ensures |b| > 0 && a[0] < b[0] { HeadsFirst(a, b, i); }
    }
  }

  // ---------------------------------------------------------- what trimming is

  ghost predicate AllSpace(s: string) {
    forall i :: 0 <= i < |s| ==> IsSpace(s[i])
  }

  /** Neither end is a space. */
  ghost predicate Trimmed(s: string) {
    |s| > 0 ==> !IsSpace(s[0]) && !IsSpace(s[|s| - 1])
  }

  lemma {:induction false} TrimLeftPart(s: string) returns (pre: string)
    ensures s == pre + TrimLeft(s) && AllSpace(pre)
    ensures TrimLeft(s) != "" ==> !IsSpace(TrimLeft(s)[0])
  {
    pre := "";
    if |s| > 0 && IsSpace(s[0]) {
      var rest := TrimLeftPart(s[1..]);
      pre := [s[0]] + rest;
      assert s == [s[0]] + s[1..];
    }
  }

  lemma {:induction false} TrimRightPart(s: string) returns (post: string)
    ensures s == TrimRight(s) + post && AllSpace(post)
    ensures TrimRight(s) != "" ==> !IsSpace(TrimRight(s)[|TrimRight(s)| - 1]) && s[0] == TrimRight(s)[0]
  {
    post := "";
    if |s| > 0 && IsSpace(s[|s| - 1]) {
      var rest := TrimRightPart(s[..|s| - 1]);
      post := rest + [s[|s| - 1]];
      assert s == s[..|s| - 1] + [s[|s| - 1]];
    }
  }

  /** Trimming takes white space off both ends and leaves nothing else to take. */
  lemma TrimSpaceParts(s: string) returns (pre: string, post: string)
    ensures s == pre + TrimSpace(s) + post && AllSpace(pre) && AllSpace(post) && Trimmed(TrimSpace(s))
  {
    pre := TrimLeftPart(s);
    post := TrimRightPart(TrimLeft(s));
    assert pre + (TrimSpace(s) + post) == pre + TrimSpace(s) + post;
  }

  lemma {:induction false} TrimLeftOff(pre: string, s: string)
    requires AllSpace(pre) && (s == "" || !IsSpace(s[0]))
    ensures TrimLeft(pre + s) == s
  {
    if |pre| > 0 {
      assert (pre + s)[1..] == pre[1..] + s;
      TrimLeftOff(pre[1..], s);
    } else {
      assert pre + s == s;
    }
  }

  lemma {:induction false} TrimRightOff(s: string, post: string)
    requires AllSpace(post) && Trimmed(s)
    ensures TrimRight(s + post) == s
  {
    if |post| > 0 {
      assert (s + post)[..|s + post| - 1] == s + post[..|post| - 1];
      TrimRightOff(s, post[..|post| - 1]);
    } else {
      assert s + post == s;
    }
  }

  lemma {:induction false} TrimLeftAll(s: string)
    requires AllSpace(s)
    ensures TrimLeft(s) == ""
  {
    if |s| > 0 { TrimLeftAll(s[1..]); }
  }

  lemma TrimSpaceOff(pre: string, s: string, post: string)
    requires AllSpace(pre) && AllSpace(post) && Trimmed(s)
    ensures TrimSpace(pre + s + post) == s
  {
    if s == "" {
      assert pre + s + post == pre + post;
      TrimLeftAll(pre + post);
    } else {
      assert pre + s + post == pre + (s + post);
      TrimLeftOff(pre, s + post);
      TrimRightOff(s, post);
    }
  }

  /** White space, by code point. */
  lemma SpacesAre(c: char)
    ensures IsSpace(c) <==>
              c as int in {0x09, 0x0A, 0x0B, 0x0C, 0x0D, 0x20, 0x85, 0xA0, 0x1680, 0x2028, 0x2029,
              0x202F, 0x205F, 0x3000}
              || 0x2000 <= c as int <= 0x200A
  {
  }
}
