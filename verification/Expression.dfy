/** `substituteExpressions`: replaces the `${{ ... }}` expressions of a string in one pass,
    leftmost first and each as short as possible. */
module Expression {
  import opened Strings
  import opened Seqs

  // ------------------------------------------------------- what is a match

  predicate OpenAt(s: string, i: nat) {
    i + 3 <= |s| && s[i] == '$' && s[i + 1] == '{' && s[i + 2] == '{'
  }

  predicate CloseAt(s: string, j: nat) {
    j + 2 <= |s| && s[j] == '}' && s[j + 1] == '}'
  }

  /** The pattern matches at `i` with its closing braces at `j`: the first ones, and no
      newline before them, since `.` does not match one. */
  ghost predicate MatchAt(s: string, i: nat, j: nat) {
    OpenAt(s, i) && i + 3 <= j && CloseAt(s, j)
    && forall k :: i + 3 <= k < j ==> s[k] != '\n' && !CloseAt(s, k)
  }

  ghost predicate HasMatch(s: string, i: nat) {
    exists j :: MatchAt(s, i, j)
  }

  lemma MatchUnique(s: string, i: nat, j: nat, k: nat)
    requires MatchAt(s, i, j) && MatchAt(s, i, k)
    ensures j == k
  {
  }

  /** Start of the match, and position of its closing braces. */
  datatype Span = Span(start: nat, close: nat)

  /** `spans` are the matches of `s` from `from` on: each the leftmost one after its
      predecessor's end. */
  ghost predicate Matches(s: string, from: nat, spans: seq<Span>)
    decreases |spans|
  {
    if |spans| == 0 then forall q: nat :: from <= q ==> !HasMatch(s, q)
    else
      from <= spans[0].start && MatchAt(s, spans[0].start, spans[0].close)
      && (forall q: nat :: from <= q < spans[0].start ==> !HasMatch(s, q))
      && Matches(s, spans[0].close + 2, spans[1..])
  }

  /** A string has one such list. */
  lemma {:induction false} MatchesUnique(s: string, from: nat, a: seq<Span>, b: seq<Span>)
    requires Matches(s, from, a) && Matches(s, from, b)
    ensures a == b
    decreases |a|
  {
    if |a| == 0 {
      if |b| > 0 { assert HasMatch(s, b[0].start); }
    } else {
      assert HasMatch(s, a[0].start);
      if |b| > 0 {
        assert HasMatch(s, b[0].start);
        assert a[0].start == b[0].start;
        MatchUnique(s, a[0].start, a[0].close, b[0].close);
        MatchesUnique(s, a[0].close + 2, a[1..], b[1..]);
        assert a == [a[0]] + a[1..] && b == [b[0]] + b[1..];
      }
    }
  }

  // ------------------------------------------------------------- resolution

  datatype GitInfo = GitInfo(sha: string, ref: string, available: bool)

  datatype Context = Context(matrixValues: map<string, string>, env: map<string, string>, git: GitInfo)

  datatype Level = Emulated | Unsupported | Supported

  datatype Detail =
    | FromMatrix
    | NoSuchMatrixKey(key: string)
    | FromEnv
    | NoRepository
    | HeadCommit
    | DetachedHead
    | CurrentRef
    | NotEvaluated

  datatype Finding = Finding(job: string, step: string, feature: string, level: Level, detail: Detail)

  /** `value` is what replaces the match; `None` leaves the text as it is. */
  datatype Resolution = Resolution(level: Level, detail: Detail, value: Option<string>)

  predicate IsWord(c: char) {
    'A' <= c <= 'Z' || 'a' <= c <= 'z' || '0' <= c <= '9' || c == '_'
  }

  /** The non-empty key after `prefix`, if every character of it is allowed. */
  function KeyAfter(prefix: string, inner: string, dash: bool): Option<string> {
    if |inner| > |prefix| && inner[..|prefix|] == prefix
       && forall i :: |prefix| <= i < |inner| ==> IsWord(inner[i]) || (dash && inner[i] == '-')
    then Some(inner[|prefix|..])
    else None
  }

  function Resolve(inner: string, ctx: Context): Resolution {
    var m := KeyAfter("matrix.", inner, true);
    var e := KeyAfter("env.", inner, false);
    if m.Some? then
      if m.value in ctx.matrixValues then Resolution(Supported, FromMatrix, Some(ctx.matrixValues[m.value]))
      else Resolution(Unsupported, NoSuchMatrixKey(m.value), None)
    else if e.Some? then
      Resolution(Supported, FromEnv, Some(if e.value in ctx.env then ctx.env[e.value] else ""))
    else if inner == "github.sha" then
      if !ctx.git.available then Resolution(Unsupported, NoRepository, Some(""))
      else Resolution(Supported, HeadCommit, Some(ctx.git.sha))
    else if inner == "github.ref" then
      if !ctx.git.available then Resolution(Unsupported, NoRepository, Some(""))
      else if ctx.git.ref == "" then Resolution(Unsupported, DetachedHead, Some(""))
      else Resolution(Supported, CurrentRef, Some(ctx.git.ref))
    else Resolution(Unsupported, NotEvaluated, None)
  }

  /** A reference to a matrix key or an environment variable resolves to what the context
      holds, and to nothing else. */
  lemma ResolveReferences(key: string, ctx: Context)
    requires key != "" && forall i :: 0 <= i < |key| ==> IsWord(key[i]) || key[i] == '-'
    ensures '-' !in key ==>
              Resolve("env." + key, ctx)
              == Resolution(Supported, FromEnv, Some(if key in ctx.env then ctx.env[key] else ""))
    ensures '-' in key ==> Resolve("env." + key, ctx) == Resolution(Unsupported, NotEvaluated, None)
    ensures key in ctx.matrixValues ==>
              Resolve("matrix." + key, ctx) == Resolution(Supported, FromMatrix, Some(ctx.matrixValues[key]))
    ensures key !in ctx.matrixValues ==>
              Resolve("matrix." + key, ctx) == Resolution(Unsupported, NoSuchMatrixKey(key), None)
  {
    var e, m := "env." + key, "matrix." + key;
    assert e[..4] == "env." && e[4..] == key && m[..7] == "matrix." && m[7..] == key;
    assert e[0] == 'e' && m[0] == 'm';
    assert KeyAfter("matrix.", e, true) == None by { if |e| > 7 { assert e[..7][0] == 'e'; } }
  }

  // ---------------------------------------------------------- substitution

  function InnerOf(s: string, m: Span): string
    requires m.start + 3 <= m.close <= |s|
  {
    TrimSpace(s[m.start + 3..m.close])
  }

  predicate InBounds(s: string, from: nat, spans: seq<Span>)
    decreases |spans|
  {
    if |spans| == 0 then from <= |s|
    else from <= spans[0].start && spans[0].start + 3 <= spans[0].close && spans[0].close + 2 <= |s|
         && InBounds(s, spans[0].close + 2, spans[1..])
  }

  /** The text between the matches as it is, and each match replaced on its own. */
  function Rendered(s: string, from: nat, spans: seq<Span>, ctx: Context): string
    requires InBounds(s, from, spans)
    decreases |spans|
  {
    if |spans| == 0 then s[from..]
    else
      var m := spans[0];
      s[from..m.start] + Replacement(s, m, ctx) + Rendered(s, m.close + 2, spans[1..], ctx)
  }

  function Replacement(s: string, m: Span, ctx: Context): string
    requires m.start + 3 <= m.close && m.close + 2 <= |s|
  {
    match Resolve(InnerOf(s, m), ctx).value
    case Some(v) => v
    case None => s[m.start..m.close + 2]
  }

  function FindingOf(job: string, step: string, inner: string, ctx: Context): Finding {
    var r := Resolve(inner, ctx);
    Finding(job, step, "${{ " + inner + " }}", r.level, r.detail)
  }

  /** One finding per match, in order. */
  ghost predicate OneFindingEach(s: string, spans: seq<Span>, job: string, step: string, ctx: Context,
                                 findings: seq<Finding>) {
    |findings| == |spans|
    && forall k :: 0 <= k < |spans| ==>
         spans[k].start + 3 <= spans[k].close <= |s|
         && findings[k] == FindingOf(job, step, InnerOf(s, spans[k]), ctx)
  }

  lemma {:induction false} MatchesInBounds(s: string, from: nat, spans: seq<Span>)
    requires Matches(s, from, spans) && from <= |s|
    ensures InBounds(s, from, spans)
    decreases |spans|
  {
    if |spans| > 0 { MatchesInBounds(s, spans[0].close + 2, spans[1..]); }
  }

  /** `out` and `findings` are the substitution of `s`. */
  ghost predicate Substitutes(s: string, job: string, step: string, ctx: Context, out: string, findings: seq<Finding>) {
    exists spans :: Matches(s, 0, spans) && InBounds(s, 0, spans)
                    && out == Rendered(s, 0, spans, ctx) && OneFindingEach(s, spans, job, step, ctx, findings)
  }

  /** The leftmost match from `from` on, if there is one. */
  method FindMatch(s: string, from: nat) returns (m: Option<Span>)
    requires from <= |s|
    ensures m == None ==> forall q: nat :: from <= q ==> !HasMatch(s, q)
    ensures m.Some? ==> from <= m.value.start && MatchAt(s, m.value.start, m.value.close)
                        && forall q: nat :: from <= q < m.value.start ==> !HasMatch(s, q)
  {
    var i := from;
    while i < |s|
      invariant from <= i <= |s|
      invariant forall q: nat :: from <= q < i ==> !HasMatch(s, q)
    {
      if OpenAt(s, i) {
        var j := i + 3;
        while j < |s| && s[j] != '\n' && !CloseAt(s, j)
          invariant i + 3 <= j <= |s|
          invariant forall k :: i + 3 <= k < j ==> s[k] != '\n' && !CloseAt(s, k)
        {
          j := j + 1;
        }
        if j < |s| && CloseAt(s, j) {
          return Some(Span(i, j));
        }
        NoLaterClose(s, i, j);
      }
      i := i + 1;
    }
    return None;
  }

  lemma NoLaterClose(s: string, i: nat, j: nat)
    requires i + 3 <= j <= |s|
    requires forall k :: i + 3 <= k < j ==> s[k] != '\n' && !CloseAt(s, k)
    requires j == |s| || (s[j] == '\n')
    ensures !HasMatch(s, i)
  {
  }

  method SubstituteExpressions(s: string, job: string, step: string, ctx: Context)
    returns (out: string, findings: seq<Finding>)
    ensures Substitutes(s, job, step, ctx, out, findings)
  {
    hide Resolve, InnerOf, Partial, HasMatch, Matches, Rendered;
    out, findings := "", [];
    var pos := 0;
    ghost var spans: seq<Span> := [];
    PartialStarts(s, ctx);
    var m := FindMatch(s, 0);
    while m.Some?
      invariant pos <= |s| && Partial(s, pos, spans, ctx, out) && OneFindingEach(s, spans, job, step, ctx, findings)
      invariant m == None ==> forall q: nat :: pos <= q ==> !HasMatch(s, q)
      invariant m.Some? ==> pos <= m.value.start && MatchAt(s, m.value.start, m.value.close)
                            && forall q: nat :: pos <= q < m.value.start ==> !HasMatch(s, q)
      decreases |s| - pos, m
    {
      var inner := InnerOf(s, m.value);
      var r := Resolve(inner, ctx);
      findings := findings + [Finding(job, step, "${{ " + inner + " }}", r.level, r.detail)];
      var replacement := match r.value case Some(v) => v case None => s[m.value.start..m.value.close + 2];
      PartialNext(s, pos, spans, ctx, out, m.value);
      out := out + s[pos..m.value.start] + replacement;
      spans := spans + [m.value];
      pos := m.value.close + 2;
      m := FindMatch(s, pos);
    }
    PartialEnds(s, pos, spans, ctx, out);
    out := out + s[pos..];
  }

  /** The output so far: whatever the remaining matches turn out to be, they complete it. */
  ghost predicate Partial(s: string, pos: nat, spans: seq<Span>, ctx: Context, out: string)
    requires pos <= |s|
  {
    forall tail :: Matches(s, pos, tail) ==> Completes(s, pos, spans, ctx, out, tail)
  }

  ghost predicate Completes(s: string, pos: nat, spans: seq<Span>, ctx: Context, out: string, tail: seq<Span>)
    requires pos <= |s|
  {
    InBounds(s, pos, tail) && Matches(s, 0, spans + tail) && InBounds(s, 0, spans + tail)
    && Rendered(s, 0, spans + tail, ctx) == out + Rendered(s, pos, tail, ctx)
  }

  lemma PartialStarts(s: string, ctx: Context)
    ensures Partial(s, 0, [], ctx, "")
  {
    forall tail | Matches(s, 0, tail) ensures Completes(s, 0, [], ctx, "", tail) {
      assert [] + tail == tail;
      MatchesInBounds(s, 0, tail);
    }
  }

  lemma PartialNext(s: string, pos: nat, spans: seq<Span>, ctx: Context, out: string, m: Span)
    requires pos <= |s| && Partial(s, pos, spans, ctx, out)
    requires pos <= m.start && MatchAt(s, m.start, m.close) && forall q: nat :: pos <= q < m.start ==> !HasMatch(s, q)
    ensures Partial(s, m.close + 2, spans + [m], ctx, out + s[pos..m.start] + Replacement(s, m, ctx))
  {
    hide HasMatch, Replacement;
    var out' := out + s[pos..m.start] + Replacement(s, m, ctx);
    var pos', spans' := m.close + 2, spans + [m];
    forall tail | Matches(s, pos', tail) ensures Completes(s, pos', spans', ctx, out', tail) {
      var more := [m] + tail;
      assert more[1..] == tail;
      assert Matches(s, pos, more);
      assert Completes(s, pos, spans, ctx, out, more);
      assert (spans + [m]) + tail == spans + more;
      var rest := Rendered(s, m.close + 2, tail, ctx);
      assert Rendered(s, pos, more, ctx) == s[pos..m.start] + Replacement(s, m, ctx) + rest;
      Reassociate(out, s[pos..m.start], Replacement(s, m, ctx), rest);
    }
  }

  lemma Reassociate(a: string, b: string, c: string, d: string)
    ensures a + (b + c + d) == a + b + c + d
  {
  }

  lemma PartialEnds(s: string, pos: nat, spans: seq<Span>, ctx: Context, out: string)
    requires pos <= |s| && Partial(s, pos, spans, ctx, out)
    requires forall q: nat :: pos <= q ==> !HasMatch(s, q)
    ensures Matches(s, 0, spans) && InBounds(s, 0, spans) && Rendered(s, 0, spans, ctx) == out + s[pos..]
  {
    assert Matches(s, pos, []);
    assert Completes(s, pos, spans, ctx, out, []);
    assert spans + [] == spans;
  }

  // ------------------------------------------------------------------ theorems

  /** The substitution is a function of its inputs. */
  lemma SubstitutionUnique(s: string, job: string, step: string, ctx: Context,
                           out: string, findings: seq<Finding>, out': string, findings': seq<Finding>)
    requires Substitutes(s, job, step, ctx, out, findings) && Substitutes(s, job, step, ctx, out', findings')
    ensures out == out' && findings == findings'
  {
    var a: seq<Span> :| Matches(s, 0, a) && InBounds(s, 0, a) && out == Rendered(s, 0, a, ctx)
                         && OneFindingEach(s, a, job, step, ctx, findings);
    var b: seq<Span> :| Matches(s, 0, b) && InBounds(s, 0, b) && out' == Rendered(s, 0, b, ctx)
                         && OneFindingEach(s, b, job, step, ctx, findings');
    MatchesUnique(s, 0, a, b);
  }

  datatype Piece = Literal(text: string) | Expr(text: string)

  /** The string cut at its matches. */
  function Pieces(s: string, from: nat, spans: seq<Span>): seq<Piece>
    requires InBounds(s, from, spans)
    decreases |spans|
  {
    if |spans| == 0 then [Literal(s[from..])]
    else
      var m := spans[0];
      [Literal(s[from..m.start]), Expr(s[m.start..m.close + 2])] + Pieces(s, m.close + 2, spans[1..])
  }

  function Concat(pieces: seq<Piece>): string {
    if |pieces| == 0 then "" else pieces[0].text + Concat(pieces[1..])
  }

  /** A literal is copied; an expression is replaced by what its own text resolves to. */
  function RenderPiece(p: Piece, ctx: Context): string {
    if p.Literal? || |p.text| < 5 then p.text
    else match Resolve(TrimSpace(p.text[3..|p.text| - 2]), ctx).value
         case Some(v) => v
         case None => p.text
  }

  function RenderPieces(pieces: seq<Piece>, ctx: Context): string {
    if |pieces| == 0 then "" else RenderPiece(pieces[0], ctx) + RenderPieces(pieces[1..], ctx)
  }

  lemma {:induction false} PiecesConcat(s: string, from: nat, spans: seq<Span>)
    requires InBounds(s, from, spans)
    ensures Concat(Pieces(s, from, spans)) == s[from..]
    decreases |spans|
  {
    if |spans| == 0 {
      assert [Literal(s[from..])][1..] == [];
    } else {
      var m := spans[0];
      PiecesConcat(s, m.close + 2, spans[1..]);
      ConcatTwo(Literal(s[from..m.start]), Expr(s[m.start..m.close + 2]), Pieces(s, m.close + 2, spans[1..]));
      SlicesJoin(s, from, m.start, m.close + 2);
      SlicesJoin(s, from, m.close + 2, |s|);
    }
  }

  lemma ConcatTwo(p: Piece, q: Piece, rest: seq<Piece>)
    ensures Concat([p, q] + rest) == p.text + q.text + Concat(rest)
  {
    var all := [p, q] + rest;
    assert all[1..][1..] == rest && all[1..][0] == q;
    assert Concat(all[1..]) == q.text + Concat(rest);
  }

  lemma RenderTwo(p: Piece, q: Piece, rest: seq<Piece>, ctx: Context)
    ensures RenderPieces([p, q] + rest, ctx) == RenderPiece(p, ctx) + RenderPiece(q, ctx) + RenderPieces(rest, ctx)
  {
    hide RenderPiece;
    var all := [p, q] + rest;
    assert all[1..][1..] == rest && all[1..][0] == q;
    assert RenderPieces(all[1..], ctx) == RenderPiece(q, ctx) + RenderPieces(rest, ctx);
  }

  lemma RenderMatch(s: string, m: Span, ctx: Context)
    requires m.start + 3 <= m.close && m.close + 2 <= |s|
    ensures RenderPiece(Expr(s[m.start..m.close + 2]), ctx) == Replacement(s, m, ctx)
  {
    hide Resolve, TrimSpace;
    var t := s[m.start..m.close + 2];
    SliceOfSlice(s, m.start, m.close + 2, 3, |t| - 2);
    assert m.start + (|t| - 2) == m.close;
  }

  lemma {:induction false} RenderedPieces(s: string, from: nat, spans: seq<Span>, ctx: Context)
    requires InBounds(s, from, spans)
    ensures Rendered(s, from, spans, ctx) == RenderPieces(Pieces(s, from, spans), ctx)
    decreases |spans|
  {
    hide RenderPieces, Replacement, Resolve;
    if |spans| == 0 {
      RenderLiteral(s[from..], ctx);
    } else {
      var m := spans[0];
      RenderedPieces(s, m.close + 2, spans[1..], ctx);
      RenderMatch(s, m, ctx);
      RenderTwo(Literal(s[from..m.start]), Expr(s[m.start..m.close + 2]), Pieces(s, m.close + 2, spans[1..]), ctx);
    }
  }

  lemma RenderLiteral(text: string, ctx: Context)
    ensures RenderPieces([Literal(text)], ctx) == text
  {
    hide Resolve;
    assert [Literal(text)][1..] == [];
    assert RenderPieces([Literal(text)][1..], ctx) == "";
  }

  /** One pass: the pieces of the input concatenate back to it, the output is each piece
      rendered on its own -- so no substituted value is ever looked at again -- and the
      findings are those of the expressions, in order. */
  lemma SubstitutionIsPiecewise(s: string, job: string, step: string, ctx: Context, out: string, findings: seq<Finding>)
    requires Substitutes(s, job, step, ctx, out, findings)
    ensures exists spans :: Matches(s, 0, spans) && InBounds(s, 0, spans)
              && Concat(Pieces(s, 0, spans)) == s && out == RenderPieces(Pieces(s, 0, spans), ctx)
              && OneFindingEach(s, spans, job, step, ctx, findings)
  {
    var a: seq<Span> :| Matches(s, 0, a) && InBounds(s, 0, a) && out == Rendered(s, 0, a, ctx)
                         && OneFindingEach(s, a, job, step, ctx, findings);
    PiecesConcat(s, 0, a);
    RenderedPieces(s, 0, a, ctx);
    assert s[0..] == s;
  }

  /** Nothing is reported exactly when there is nothing to match, and then nothing changes. */
  lemma NoFindingsIffNoMatch(s: string, job: string, step: string, ctx: Context, out: string, findings: seq<Finding>)
    requires Substitutes(s, job, step, ctx, out, findings)
    ensures findings == [] <==> forall q: nat :: !HasMatch(s, q)
    ensures findings == [] ==> out == s
  {
    var a: seq<Span> :| Matches(s, 0, a) && InBounds(s, 0, a) && out == Rendered(s, 0, a, ctx)
                         && OneFindingEach(s, a, job, step, ctx, findings);
    if |a| > 0 { assert HasMatch(s, a[0].start); }
    assert s[0..] == s;
  }

  // ------------------------------------------- what an unsupported match becomes

  /** A reference to repository facts that are not there. */
  predicate Degraded(inner: string, ctx: Context) {
    (inner == "github.sha" && !ctx.git.available)
    || (inner == "github.ref" && (!ctx.git.available || ctx.git.ref == ""))
  }

  /** Match `k` is reported as unsupported only if its text is left as it is. */
  ghost predicate CopiedIfUnsupported(s: string, spans: seq<Span>, ctx: Context, findings: seq<Finding>, k: nat)
    requires k < |spans| == |findings| && spans[k].start + 3 <= spans[k].close && spans[k].close + 2 <= |s|
  {
    findings[k].level == Unsupported ==> Replacement(s, spans[k], ctx) == s[spans[k].start..spans[k].close + 2]
  }

  lemma {:induction false} SpansInside(s: string, from: nat, spans: seq<Span>)
    requires InBounds(s, from, spans)
    ensures forall k :: 0 <= k < |spans| ==> spans[k].start + 3 <= spans[k].close && spans[k].close + 2 <= |s|
    decreases |spans|
  {
    if |spans| > 0 {
      SpansInside(s, spans[0].close + 2, spans[1..]);
      assert forall k :: 1 <= k < |spans| ==> spans[k] == spans[1..][k - 1];
    }
  }

  /** One match: left as it is although unsupported, unless it is a degraded reference. */
  lemma UnsupportedIsCopied(s: string, m: Span, job: string, step: string, ctx: Context)
    requires m.start + 3 <= m.close && m.close + 2 <= |s|
    ensures (FindingOf(job, step, InnerOf(s, m), ctx).level == Unsupported ==>
               Replacement(s, m, ctx) == s[m.start..m.close + 2])
            <==> !Degraded(InnerOf(s, m), ctx)
  {
    hide KeyAfter;
    var inner := InnerOf(s, m);
    assert |s[m.start..m.close + 2]| > 0;
    RepositoryReference(inner, ctx);
  }

  lemma RepositoryReference(inner: string, ctx: Context)
    ensures inner == "github.sha" || inner == "github.ref" ==>
              KeyAfter("matrix.", inner, true) == None && KeyAfter("env.", inner, false) == None
  {
    if inner == "github.sha" || inner == "github.ref" {
      assert inner[0] == 'g' && "matrix."[0] == 'm' && "env."[0] == 'e';
      assert inner[..7][0] == 'g' && inner[..4][0] == 'g';
    }
  }

  /** "What is reported as unsupported stays in the text" holds for a string exactly when it
      has no reference to a missing commit or symbolic ref. */
  lemma UnsupportedCopiedIffNotDegraded(s: string, job: string, step: string, ctx: Context, spans: seq<Span>,
                                        findings: seq<Finding>)
    requires Matches(s, 0, spans) && InBounds(s, 0, spans) && OneFindingEach(s, spans, job, step, ctx, findings)
    ensures forall k :: 0 <= k < |spans| ==> spans[k].start + 3 <= spans[k].close && spans[k].close + 2 <= |s|
    ensures (forall k: nat :: k < |spans| ==> CopiedIfUnsupported(s, spans, ctx, findings, k))
            <==> forall k: nat :: k < |spans| ==> !Degraded(InnerOf(s, spans[k]), ctx)
  {
    hide Degraded, InnerOf, Replacement, FindingOf, Matches, InBounds;
    SpansInside(s, 0, spans);
    forall k: nat | k < |spans|
      ensures CopiedIfUnsupported(s, spans, ctx, findings, k) <==> !Degraded(InnerOf(s, spans[k]), ctx)
    {
      UnsupportedIsCopied(s, spans[k], job, step, ctx);
    }
  }

  // ------------------------------------------------------- a single reference

  /** `inner`, alone between the braces, with white space around it. */
  function Reference(inner: string): string {
    "${{ " + inner + " }}"
  }

  /** Text that is neither cut short nor trimmed between the braces. */
  ghost predicate IsInner(inner: string) {
    inner != "" && Trimmed(inner) && forall k :: 0 <= k < |inner| ==> inner[k] != '\n' && inner[k] != '}'
  }

  lemma ReferenceMatches(inner: string)
    requires IsInner(inner)
    ensures var s, m := Reference(inner), Span(0, |inner| + 5);
            Matches(s, 0, [m]) && InBounds(s, 0, [m]) && InnerOf(s, m) == inner
            && s[0..0] == "" && s[|inner| + 7..] == "" && s[0..|inner| + 7] == s
  {
    hide TrimSpace;
    var s, m := Reference(inner), Span(0, |inner| + 5);
    assert |s| == |inner| + 7;
    assert forall k :: 0 <= k < |inner| ==> s[k + 4] == inner[k];
    forall k | 3 <= k < |inner| + 5 ensures s[k] != '\n' && s[k] != '}' {
      var h := k - 4;
      assert 0 <= h < |inner| ==> s[h + 4] == inner[h];
    }
    assert MatchAt(s, 0, |inner| + 5);
    assert [m][1..] == [] && Matches(s, |s|, []);
    assert s[3..|inner| + 5] == " " + inner + " ";
    TrimSpaceOff(" ", inner, " ");
  }

  /** A string that is one reference becomes what the reference resolves to, with one
      finding. */
  lemma ReferenceSubstitutes(inner: string, job: string, step: string, ctx: Context, value: string)
    requires IsInner(inner)
    requires value == match Resolve(inner, ctx).value case Some(v) => v case None => Reference(inner)
    ensures Substitutes(Reference(inner), job, step, ctx, value, [FindingOf(job, step, inner, ctx)])
  {
    hide Matches, Resolve, TrimSpace;
    var s, m := Reference(inner), Span(0, |inner| + 5);
    ReferenceMatches(inner);
    hide Reference, InnerOf;
    assert [m][1..] == [] && |s| == |inner| + 7;
    assert Replacement(s, m, ctx) == value;
    assert Rendered(s, |inner| + 7, [], ctx) == "";
    assert Rendered(s, 0, [m], ctx) == value;
    assert OneFindingEach(s, [m], job, step, ctx, [FindingOf(job, step, inner, ctx)]);
  }

  function FindingFor(job: string, step: string, inner: string, level: Level, detail: Detail): Finding {
    Finding(job, step, Reference(inner), level, detail)
  }

  lemma RepositoryInner()
    ensures IsInner("github.sha") && IsInner("github.ref")
  {
  }

  /** `github.sha` is the commit of the repository; outside one it is reported as unsupported
      and replaced by nothing. */
  lemma ShaSubstitutes(job: string, step: string, ctx: Context)
    ensures ctx.git.available ==>
              Substitutes(Reference("github.sha"), job, step, ctx, ctx.git.sha,
                          [FindingFor(job, step, "github.sha", Supported, HeadCommit)])
    ensures !ctx.git.available ==>
              Substitutes(Reference("github.sha"), job, step, ctx, "",
                          [FindingFor(job, step, "github.sha", Unsupported, NoRepository)])
  {
    hide Substitutes, IsInner, KeyAfter;
    RepositoryInner();
    RepositoryReference("github.sha", ctx);
    ReferenceSubstitutes("github.sha", job, step, ctx, if ctx.git.available then ctx.git.sha else "");
  }

  /** `github.ref` is its symbolic ref; on a detached HEAD and outside a repository it is
      reported as unsupported and replaced by nothing. */
  lemma RefSubstitutes(job: string, step: string, ctx: Context)
    ensures ctx.git.available && ctx.git.ref != "" ==>
              Substitutes(Reference("github.ref"), job, step, ctx, ctx.git.ref,
                          [FindingFor(job, step, "github.ref", Supported, CurrentRef)])
    ensures ctx.git.available && ctx.git.ref == "" ==>
              Substitutes(Reference("github.ref"), job, step, ctx, "",
                          [FindingFor(job, step, "github.ref", Unsupported, DetachedHead)])
    ensures !ctx.git.available ==>
              Substitutes(Reference("github.ref"), job, step, ctx, "",
                          [FindingFor(job, step, "github.ref", Unsupported, NoRepository)])
  {
    hide Substitutes, IsInner, KeyAfter;
    RepositoryInner();
    RepositoryReference("github.ref", ctx);
    ReferenceSubstitutes("github.ref", job, step, ctx, if ctx.git.available then ctx.git.ref else "");
  }

  /** `inner` is `prefix` and a key of letters, digits, '_' and, if allowed, '-'. */
  ghost predicate HasForm(inner: string, prefix: string, dash: bool) {
    exists key :: inner == prefix + key && key != ""
      && forall i :: 0 <= i < |key| ==>
           'a' <= key[i] <= 'z' || 'A' <= key[i] <= 'Z' || '0' <= key[i] <= '9' || key[i]
           == '_' || (dash && key[i] == '-')
  }

  lemma NoFormNoKey(inner: string, prefix: string, dash: bool)
    ensures !HasForm(inner, prefix, dash) ==> KeyAfter(prefix, inner, dash) == None
  {
    if KeyAfter(prefix, inner, dash).Some? {
      var key := inner[|prefix|..];
      assert inner == prefix + key;
      assert forall i :: 0 <= i < |key| ==> key[i] == inner[|prefix| + i];
    }
  }

  /** Everything of none of the four forms is reported as not evaluated and copied. */
  lemma OtherTextIsCopied(inner: string, job: string, step: string, ctx: Context)
    requires !HasForm(inner, "matrix.", true) && !HasForm(inner, "env.", false)
    requires inner != "github.sha" && inner != "github.ref"
    ensures Resolve(inner, ctx) == Resolution(Unsupported, NotEvaluated, None)
    ensures IsInner(inner) ==>
              Substitutes(Reference(inner), job, step, ctx, Reference(inner),
                          [FindingFor(job, step, inner, Unsupported, NotEvaluated)])
  {
    NoFormNoKey(inner, "matrix.", true);
    NoFormNoKey(inner, "env.", false);
    hide Substitutes, IsInner, KeyAfter, HasForm;
    if IsInner(inner) { ReferenceSubstitutes(inner, job, step, ctx, Reference(inner)); }
  }

  /** `.` does not match a newline: braces around one are not a reference. */
  lemma NewlineIsNoReference(job: string, step: string, ctx: Context)
    ensures Substitutes("${{\n}}", job, step, ctx, "${{\n}}", [])
  {
    var s := "${{\n}}";
    assert |s| == 6 && s[3] == '\n' && forall q: nat :: q > 0 ==> !OpenAt(s, q);
    forall q: nat ensures !HasMatch(s, q) {}
    assert Matches(s, 0, []) && s[0..] == s;
  }

  /** The characters of a key, by code point: digits, capitals, '_' and small letters. */
  lemma KeyCharactersAre(c: char)
    ensures IsWord(c) <==> 48 <= c as int <= 57 || 65 <= c as int <= 90 || c as int == 95 || 97 <= c as int <= 122
  {
  }
}
