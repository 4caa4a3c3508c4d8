/** Which router a piece of source text belongs to: the blanking of nested spans in
    `_scan_router_fns` of scripts/check-route-sync.py. The spans themselves, found by regular
    expressions, are inputs. */
module RouterSpans {

  /** The text of a router, from `start` up to `end`, and the router's qualified name. */
  datatype Span = Span(start: nat, end: nat, name: string)

  /** What the span finders return: non-empty spans inside the text. */
  predicate SpansOf(text: string, spans: seq<Span>) {
    forall k | 0 <= k < |spans| :: spans[k].start < spans[k].end <= |text|
  }

  predicate Covers(s: Span, p: nat) {
    s.start <= p < s.end
  }

  predicate Within(inner: Span, outer: Span) {
    outer.start <= inner.start && inner.end <= outer.end
  }

  predicate SameExtent(a: Span, b: Span) {
    a.start == b.start && a.end == b.end
  }

  /** `inner` blanks position `p` of the body of `outer`. */
  predicate Blanks(inner: Span, outer: Span, p: nat) {
    inner.name != outer.name && Within(inner, outer) && !SameExtent(inner, outer) && Covers(inner, p)
  }

  /** Position `p` is left in the body of span `k`. */
  predicate Survives(spans: seq<Span>, k: nat, p: nat)
    requires k < |spans|
  {
    Covers(spans[k], p) && forall j | 0 <= j < |spans| :: !Blanks(spans[j], spans[k], p)
  }

  /** The body of span `k`: its text with every surviving position kept and every other
      one blank. */
  ghost predicate IsBody(text: string, spans: seq<Span>, k: nat, body: string)
    requires SpansOf(text, spans) && k < |spans|
  {
    && |body| == spans[k].end - spans[k].start
    && forall i | 0 <= i < |body| ::
         body[i] == if Survives(spans, k, spans[k].start + i) then text[spans[k].start + i] else ' '
  }

  /** The blanking loops for one span. */
  method BlankNested(text: string, spans: seq<Span>, k: nat) returns (body: string)
    requires SpansOf(text, spans) && k < |spans|
    ensures IsBody(text, spans, k, body)
  {
    var outer := spans[k];
    var chars := new char[outer.end - outer.start](i requires 0 <= i < outer.end - outer.start => text[outer.start + i]);
    for j := 0 to |spans|
      invariant forall i | 0 <= i < chars.Length ::
        chars[i] == if exists m | 0 <= m < j :: Blanks(spans[m], outer, outer.start + i) then ' ' else text[outer.start + i]
    {
      var inner := spans[j];
      if inner.name != outer.name && Within(inner, outer) && !SameExtent(inner, outer) {
        var from := inner.start - outer.start;
        var to := if inner.end - outer.start < chars.Length then inner.end - outer.start else chars.Length;
        for n := from to to
          invariant forall i | 0 <= i < chars.Length ::
            chars[i] == if from <= i < n || exists m | 0 <= m < j :: Blanks(spans[m], outer, outer.start + i)
                        then ' ' else text[outer.start + i]
        {
          chars[n] := ' ';
        }
      }
    }
    body := chars[..];
  }

  // ----- the text outside every span

  predicate Covered(spans: seq<Span>, p: nat) {
    exists k | 0 <= k < |spans| :: Covers(spans[k], p)
  }

  /** The positions below `n` that no span covers, in order. */
  ghost function OutsidePositions(spans: seq<Span>, n: nat): (ps: seq<nat>)
    ensures forall i | 0 <= i < |ps| :: ps[i] < n && !Covered(spans, ps[i])
    ensures forall i, j | 0 <= i < j < |ps| :: ps[i] < ps[j]
    ensures forall p | 0 <= p < n && !Covered(spans, p) :: p in ps
  {
    if n == 0 then []
    else OutsidePositions(spans, n - 1) + if Covered(spans, n - 1) then [] else [n - 1]
  }

  /** The text of the first `n` positions that lies outside every span. */
  ghost predicate IsOutside(text: string, spans: seq<Span>, n: nat, outside: string)
    requires n <= |text|
  {
    var ps := OutsidePositions(spans, n);
    |outside| == |ps| && forall i | 0 <= i < |ps| :: outside[i] == text[ps[i]]
  }

  /** The bodies of all spans and the top-level text. */
  method ScanRouterFns(text: string, spans: seq<Span>) returns (bodies: seq<string>, outside: string)
    requires SpansOf(text, spans)
    ensures |bodies| == |spans| && forall k | 0 <= k < |spans| :: IsBody(text, spans, k, bodies[k])
    ensures IsOutside(text, spans, |text|, outside)
  {
    bodies := [];
    var covered: set<nat> := {};
    for k := 0 to |spans|
      invariant |bodies| == k && forall j | 0 <= j < k :: IsBody(text, spans, j, bodies[j])
      invariant forall p: nat :: p in covered <==> exists j | 0 <= j < k :: Covers(spans[j], p)
    {
      var body := BlankNested(text, spans, k);
      bodies := bodies + [body];
      covered := covered + set p: nat | p < spans[k].end && Covers(spans[k], p);
    }
    outside := "";
    for i := 0 to |text|
      invariant IsOutside(text, spans, i, outside)
    {
      if i !in covered {
        outside := outside + [text[i]];
      }
    }
  }

  // ----- who owns a position

  /** Any two spans are nested or disjoint. */
  predicate Laminar(spans: seq<Span>) {
    forall i, j | 0 <= i < |spans| && 0 <= j < |spans| ::
      Within(spans[i], spans[j]) || Within(spans[j], spans[i]) || spans[i].end <= spans[j].start || spans[j].end <= spans[i].start
  }

  /** Span `k` is an innermost span at `p`. */
  predicate Innermost(spans: seq<Span>, k: nat, p: nat)
    requires k < |spans|
  {
    Covers(spans[k], p) && forall j | 0 <= j < |spans| && Covers(spans[j], p) :: Within(spans[k], spans[j])
  }

  lemma {:induction false} InnermostExists(spans: seq<Span>, p: nat, n: nat) returns (k: nat)
    requires Laminar(spans) && n <= |spans|
    requires exists j | 0 <= j < n :: Covers(spans[j], p)
    ensures k < n && Covers(spans[k], p)
    ensures forall j | 0 <= j < n && Covers(spans[j], p) :: Within(spans[k], spans[j])
  {
    if exists j | 0 <= j < n - 1 :: Covers(spans[j], p) {
      k := InnermostExists(spans, p, n - 1);
      if Covers(spans[n - 1], p) && !Within(spans[k], spans[n - 1]) {
        k := n - 1;
      }
    } else {
      k := n - 1;
    }
  }

  lemma InnermostSurvives(spans: seq<Span>, k: nat, p: nat)
    requires k < |spans| && Innermost(spans, k, p)
    ensures Survives(spans, k, p)
  {
  }

  /** The router names that a registration at `p` is recorded under. */
  ghost function Owners(spans: seq<Span>, p: nat): set<string> {
    set k | 0 <= k < |spans| && Survives(spans, k, p) :: spans[k].name
  }

  /** A covered position is recorded under the innermost span's name, and under that name
      only if and only if all innermost spans at the position share it. */
  lemma OwnedByTheInnermostExactly(spans: seq<Span>, k: nat, p: nat)
    requires Laminar(spans) && k < |spans| && Innermost(spans, k, p)
    ensures spans[k].name in Owners(spans, p)
    ensures Owners(spans, p) == {spans[k].name}
       <==> forall j | 0 <= j < |spans| && Innermost(spans, j, p) :: spans[j].name == spans[k].name
  {
    InnermostSurvives(spans, k, p);
    if forall j | 0 <= j < |spans| && Innermost(spans, j, p) :: spans[j].name == spans[k].name {
      forall j | 0 <= j < |spans| && Survives(spans, j, p) ensures spans[j].name == spans[k].name {
        assert !Blanks(spans[k], spans[j], p);
        if SameExtent(spans[k], spans[j]) {
          assert Innermost(spans, j, p);
        }
      }
      assert Owners(spans, p) == {spans[k].name};
    } else {
      var j :| 0 <= j < |spans| && Innermost(spans, j, p) && spans[j].name != spans[k].name;
      InnermostSurvives(spans, j, p);
      assert spans[j].name in Owners(spans, p);
    }
  }

  ghost predicate Distinct(spans: seq<Span>) {
    forall i, j | 0 <= i < j < |spans| :: spans[i].name != spans[j].name && !SameExtent(spans[i], spans[j])
  }

  /** With distinct spans and names, every position is left in exactly one place: the body
      of the innermost span that covers it, or else the top-level text. */
  lemma EveryPositionHasOnePlace(text: string, spans: seq<Span>, p: nat)
    requires SpansOf(text, spans) && Laminar(spans) && Distinct(spans) && p < |text|
    ensures Covered(spans, p) ==>
              exists k: nat ::
                && k < |spans| && Innermost(spans, k, p)
                && forall j | 0 <= j < |spans| :: Survives(spans, j, p) <==> j == k
    ensures p in OutsidePositions(spans, |text|) <==> forall j | 0 <= j < |spans| :: !Survives(spans, j, p)
  {
    if Covered(spans, p) {
      var k := InnermostExists(spans, p, |spans|);
      assert Innermost(spans, k, p);
      InnermostSurvives(spans, k, p);
      forall j | 0 <= j < |spans| && Survives(spans, j, p) ensures j == k {
        assert !Blanks(spans[k], spans[j], p);
      }
    }
  }

  /** Two spans of the same extent with different names both keep their text, so the
      distinctness above is needed: one registration is then recorded twice. Two
      declarations `fn a() -> Router;` and `fn b() -> Router;` without bodies give such
      spans, since both find the first brace after them (scripts/check-route-sync.py:312-317). */
  lemma SameExtentIsOwnedTwice()
    ensures var spans := [Span(0, 2, "a"), Span(0, 2, "b")];
            Laminar(spans) && Owners(spans, 0) == {"a", "b"}
  {
    var spans := [Span(0, 2, "a"), Span(0, 2, "b")];
    assert Survives(spans, 0, 0) && Survives(spans, 1, 0);
    assert spans[0].name in Owners(spans, 0) && spans[1].name in Owners(spans, 0);
  }
}
