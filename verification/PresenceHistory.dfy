/** What holds of the ledger after any sequence of lock sections, in lock order, whoever
    they belong to. PresenceProtocol.dfy shows that every interleaving of calls is one. */
module PresenceHistory {
  import opened PresenceLedger
  import opened MapTotals

  /** The two lock sections that can change the ledger. */
  datatype Section =
    | Issue(principal: Principal, houseId: string, now: Instant, nonce: string)
    | Commit(principal: Principal, observation: Observation, digest: Digest, now: Instant, eventId: Uuid)

  function Apply(l: Ledger, s: Section): Outcome {
    match s
    case Issue(principal, houseId, now, nonce) => IssueSection(l, principal, houseId, now, nonce)
    case Commit(principal, o, digest, now, eventId) => CommitSection(l, principal, o, digest, now, eventId)
  }

  /** `ls[i]` is the ledger that section `ss[i]` finds. */
  ghost predicate IsRun(ss: seq<Section>, ls: seq<Ledger>) {
    && |ls| == |ss| + 1
    && ls[0] == EMPTY_LEDGER
    && forall i | 0 <= i < |ss| :: ls[i + 1] == Apply(ls[i], ss[i]).ledger
  }

  predicate Grants(l: Ledger, s: Section) {
    s.Issue? && Apply(l, s).response.NonceIssued?
  }

  /** The section records a new decision. */
  predicate Admits(l: Ledger, s: Section) {
    && s.Commit?
    && LookUp(l, s.observation.observationId, s.digest).None?
    && CommitObstacle(l, s.principal, s.observation, s.now).None?
  }

  /** The decision that an admitted commit records. */
  function DecisionOf(l: Ledger, s: Section): Decision
    requires Admits(l, s)
  {
    Apply(l, s).response.decision
  }

  predicate AdmitsFor(l: Ledger, s: Section, key: SequenceKey) {
    Admits(l, s) && (s.principal, s.observation.houseId) == key
  }

  predicate Spends(l: Ledger, s: Section, nonce: string) {
    Admits(l, s) && s.observation.submissionNonce == nonce
  }

  /** What a section can do to the ledger: an admitted commit moves all four accounts by
      one, and nothing else touches them. */
  lemma SectionEffect(l: Ledger, s: Section)
    ensures var after := Apply(l, s).ledger;
      if Admits(l, s) then
        && |l.decisions| < MAX_RECORDED_OBSERVATIONS
        && s.observation.observationId !in l.decisions
        && s.observation.challengeId !in l.usedChallenges
        && s.observation.evidenceId !in l.usedEvidence
        && after.decisions == l.decisions[s.observation.observationId := Recorded(s.digest, DecisionOf(l, s))]
        && after.usedChallenges == l.usedChallenges + {s.observation.challengeId}
        && after.usedEvidence == l.usedEvidence + {s.observation.evidenceId}
        && after.sequences == l.sequences[KeyOf(s.principal, s.observation) := DecisionOf(l, s).sequence]
        && DecisionOf(l, s).sequence == CurrentSequence(l, KeyOf(s.principal, s.observation)) + 1
        && after.nonces == l.nonces - {s.observation.submissionNonce}
      else
        && after == l.(nonces := after.nonces)
        && (s.Commit? ==> after == l)
  {
  }

  // ----- conservation

  /** How many of the first `n` sections recorded a decision. */
  ghost function AdmittedCount(ss: seq<Section>, ls: seq<Ledger>, n: nat): nat
    requires n <= |ss| <= |ls|
  {
    if n == 0 then 0
    else AdmittedCount(ss, ls, n - 1) + if Admits(ls[n - 1], ss[n - 1]) then 1 else 0
  }

  /** The four accounts of the ledger all stand at `count`. */
  ghost predicate Balanced(l: Ledger, count: nat) {
    && |l.decisions| == |l.usedChallenges| == |l.usedEvidence| == count
    && Total(l.sequences) == count
    && count <= MAX_RECORDED_OBSERVATIONS
  }

  lemma SectionKeepsBalance(l: Ledger, s: Section, count: nat)
    requires Balanced(l, count)
    ensures Balanced(Apply(l, s).ledger, count + if Admits(l, s) then 1 else 0)
  {
    SectionEffect(l, s);
    hide Apply, CommitObstacle, LookUp;
    if Admits(l, s) {
      TotalAfterUpdate(l.sequences, KeyOf(s.principal, s.observation), DecisionOf(l, s).sequence);
    }
  }

  /** The four accounts of the ledger agree with the number of commits, and stay capped. */
  lemma {:induction false} Conservation(ss: seq<Section>, ls: seq<Ledger>, n: nat)
    requires IsRun(ss, ls) && n <= |ss|
    ensures Balanced(ls[n], AdmittedCount(ss, ls, n))
  {
    hide Apply, Admits;
    if n > 0 {
      Conservation(ss, ls, n - 1);
      SectionKeepsBalance(ls[n - 1], ss[n - 1], AdmittedCount(ss, ls, n - 1));
    }
  }

  /** No counter can come near the 64-bit limit, so the overflow refusal never happens. */
  lemma OverflowIsUnreachable(ss: seq<Section>, ls: seq<Ledger>, n: nat, key: SequenceKey)
    requires IsRun(ss, ls) && n <= |ss|
    ensures CurrentSequence(ls[n], key) <= MAX_RECORDED_OBSERVATIONS < U64_MAX
  {
    Conservation(ss, ls, n);
    if key in ls[n].sequences {
      EachAtMostTotal(ls[n].sequences, key);
    }
  }

  // ----- gap-free sequences

  ghost function CountFor(ss: seq<Section>, ls: seq<Ledger>, n: nat, key: SequenceKey): nat
    requires n <= |ss| <= |ls|
  {
    if n == 0 then 0
    else CountFor(ss, ls, n - 1, key) + if AdmitsFor(ls[n - 1], ss[n - 1], key) then 1 else 0
  }

  /** A commit is counted in every later state. */
  lemma {:induction false} CountForPasses(ss: seq<Section>, ls: seq<Ledger>, i: nat, n: nat, key: SequenceKey)
    requires i < n <= |ss| <= |ls|
    requires AdmitsFor(ls[i], ss[i], key)
    ensures CountFor(ss, ls, i, key) < CountFor(ss, ls, n, key)
  {
    hide AdmitsFor;
    if i < n - 1 {
      CountForPasses(ss, ls, i, n - 1, key);
    }
  }

  /** A key's counter is the number of decisions recorded for it. */
  lemma {:induction false} CounterCountsCommits(ss: seq<Section>, ls: seq<Ledger>, n: nat, key: SequenceKey)
    requires IsRun(ss, ls) && n <= |ss|
    ensures CurrentSequence(ls[n], key) == CountFor(ss, ls, n, key)
  {
    hide Apply, Admits;
    if n > 0 {
      CounterCountsCommits(ss, ls, n - 1, key);
      SectionEffect(ls[n - 1], ss[n - 1]);
    }
  }

  /** Each decision carries its own place in the commit order of its principal and house,
      one more than the sequence the observation claimed to follow. */
  lemma SequenceIsCommitOrder(ss: seq<Section>, ls: seq<Ledger>, i: nat)
    requires IsRun(ss, ls) && i < |ss| && Admits(ls[i], ss[i])
    ensures var key := (ss[i].principal, ss[i].observation.houseId);
            && DecisionOf(ls[i], ss[i]).sequence == CountFor(ss, ls, i + 1, key)
            && ss[i].observation.previousSequence == CountFor(ss, ls, i, key)
  {
    CounterCountsCommits(ss, ls, i, (ss[i].principal, ss[i].observation.houseId));
  }

  ghost predicate CarriesSequence(ss: seq<Section>, ls: seq<Ledger>, i: nat, key: SequenceKey, q: nat)
    requires i < |ss| <= |ls|
  {
    AdmitsFor(ls[i], ss[i], key) && DecisionOf(ls[i], ss[i]).sequence == q
  }

  /** The decisions of one principal and house are numbered 1 to n: every number is carried... */
  lemma {:induction false} EverySequenceIsCarried(ss: seq<Section>, ls: seq<Ledger>, n: nat, key: SequenceKey, q: nat)
    returns (i: nat)
    requires IsRun(ss, ls) && n <= |ss|
    requires 1 <= q <= CurrentSequence(ls[n], key)
    ensures i < n && CarriesSequence(ss, ls, i, key, q)
  {
    CounterCountsCommits(ss, ls, n, key);
    CounterCountsCommits(ss, ls, n - 1, key);
    if q <= CurrentSequence(ls[n - 1], key) {
      i := EverySequenceIsCarried(ss, ls, n - 1, key, q);
    } else {
      i := n - 1;
      SequenceIsCommitOrder(ss, ls, i);
    }
  }

  /** ...and carried once, so at most one observation follows any given sequence. */
  lemma SequenceIsCarriedOnce(ss: seq<Section>, ls: seq<Ledger>, i: nat, j: nat, key: SequenceKey)
    requires IsRun(ss, ls) && i < |ss| && j < |ss|
    requires AdmitsFor(ls[i], ss[i], key) && AdmitsFor(ls[j], ss[j], key)
    requires ss[i].observation.previousSequence == ss[j].observation.previousSequence
    ensures i == j
  {
    SequenceIsCommitOrder(ss, ls, i);
    SequenceIsCommitOrder(ss, ls, j);
    hide Apply, Admits, DecisionOf, IsRun;
    if i < j {
      CountForPasses(ss, ls, i, j, key);
    } else if j < i {
      CountForPasses(ss, ls, j, i, key);
    }
  }

  /** A carried number is one that the counter has passed. */
  lemma CarriedIsCounted(ss: seq<Section>, ls: seq<Ledger>, i: nat, n: nat, key: SequenceKey, q: nat)
    requires IsRun(ss, ls) && i < n <= |ss| && CarriesSequence(ss, ls, i, key, q)
    ensures 1 <= q <= CurrentSequence(ls[n], key)
  {
    SequenceIsCommitOrder(ss, ls, i);
    CountForPasses(ss, ls, i, n, key);
    CounterCountsCommits(ss, ls, n, key);
  }

  /** Later decisions of one principal and house carry larger numbers. */
  lemma CarriedInOrder(ss: seq<Section>, ls: seq<Ledger>, i: nat, j: nat, key: SequenceKey, p: nat, q: nat)
    requires IsRun(ss, ls) && i < j < |ss|
    requires CarriesSequence(ss, ls, i, key, p) && CarriesSequence(ss, ls, j, key, q)
    ensures p < q
  {
    SequenceIsCommitOrder(ss, ls, i);
    SequenceIsCommitOrder(ss, ls, j);
    CountForPasses(ss, ls, i, j, key);
  }

  // ----- decisions

  /** Decisions are append-only. */
  lemma {:induction false} DecisionsAreKept(ss: seq<Section>, ls: seq<Ledger>, m: nat, n: nat, id: Uuid)
    requires IsRun(ss, ls) && m <= n <= |ss|
    requires id in ls[m].decisions
    ensures id in ls[n].decisions && ls[n].decisions[id] == ls[m].decisions[id]
  {
    if m < n {
      DecisionsAreKept(ss, ls, m, n - 1, id);
    }
  }

  ghost predicate Records(l: Ledger, s: Section, id: Uuid, recorded: Recorded) {
    && Admits(l, s)
    && s.observation.observationId == id
    && recorded == Recorded(s.digest, DecisionOf(l, s))
  }

  /** Every recorded decision was recorded by exactly one section. */
  lemma {:induction false} DecisionHasItsCommit(ss: seq<Section>, ls: seq<Ledger>, n: nat, id: Uuid) returns (i: nat)
    requires IsRun(ss, ls) && n <= |ss|
    requires id in ls[n].decisions
    ensures i < n && Records(ls[i], ss[i], id, ls[n].decisions[id])
    ensures forall j | 0 <= j < n && Admits(ls[j], ss[j]) && ss[j].observation.observationId == id :: j == i
  {
    SectionEffect(ls[n - 1], ss[n - 1]);
    hide Apply, CommitObstacle;
    if id in ls[n - 1].decisions {
      i := DecisionHasItsCommit(ss, ls, n - 1, id);
    } else {
      i := n - 1;
      forall j | 0 <= j < n && Admits(ls[j], ss[j]) && ss[j].observation.observationId == id
        ensures j == i
      {
        if j < i {
          SectionEffect(ls[j], ss[j]);
          DecisionsAreKept(ss, ls, j + 1, i, id);
        }
      }
    }
  }

  // ----- nonces

  /** Drawn nonces never repeat. */
  ghost predicate FreshNonces(ss: seq<Section>) {
    forall i, j | 0 <= i < j < |ss| && ss[i].Issue? && ss[j].Issue? :: ss[i].nonce != ss[j].nonce
  }

  function ExpiryOf(s: Section): Instant {
    s.now + 60 * SECOND
  }

  /** Section `k` ends the grant of section `j`: it consumes the nonce, or it issues another
      one at a time when this one had expired. */
  ghost predicate Ends(l: Ledger, s: Section, granted: Section)
    requires granted.Issue?
  {
    || Spends(l, s, granted.nonce)
    || (s.Issue? && ExpiryOf(granted) <= s.now)
  }

  /** Section `j` granted a nonce that none of the sections between `j` and `n` ended. */
  ghost predicate Stands(ss: seq<Section>, ls: seq<Ledger>, j: nat, n: nat)
    requires n <= |ss| <= |ls|
  {
    && j < n
    && Grants(ls[j], ss[j])
    && forall k | j < k < n :: !Ends(ls[k], ss[k], ss[j])
  }

  function GrantOf(s: Section): Grant
    requires s.Issue?
  {
    Grant(s.principal, s.houseId, ExpiryOf(s))
  }

  /** What one section does to one pending nonce. */
  lemma NonceEffect(l: Ledger, s: Section, nonce: string)
    ensures var after := Apply(l, s).ledger.nonces;
      if Grants(l, s) && s.nonce == nonce then
        nonce in after && after[nonce] == GrantOf(s)
      else if nonce in l.nonces && !Spends(l, s, nonce) && !(s.Issue? && l.nonces[nonce].expiresAt <= s.now) then
        nonce in after && after[nonce] == l.nonces[nonce]
      else
        nonce !in after
  {
    if s.Commit? {
      SectionEffect(l, s);
      hide Apply, CommitObstacle, LookUp;
    } else {
      hide CommitObstacle, LookUp;
    }
  }

  /** The pending nonce `nonce`, if any, is that of the grant of section `j`. */
  ghost predicate PendingFrom(ss: seq<Section>, ls: seq<Ledger>, n: nat, nonce: string, j: nat)
    requires n <= |ss| < |ls|
  {
    Stands(ss, ls, j, n) && ss[j].nonce == nonce && nonce in ls[n].nonces && ls[n].nonces[nonce] == GrantOf(ss[j])
  }

  /** Whatever the clocks do, the pending nonces are exactly the grants still standing. */
  lemma {:induction false} PendingExactly(ss: seq<Section>, ls: seq<Ledger>, n: nat, nonce: string)
    requires IsRun(ss, ls) && n <= |ss| && FreshNonces(ss)
    ensures nonce in ls[n].nonces <==> exists j: nat :: Stands(ss, ls, j, n) && ss[j].nonce == nonce
    ensures forall j: nat | Stands(ss, ls, j, n) && ss[j].nonce == nonce :: PendingFrom(ss, ls, n, nonce, j)
  {
    if n > 0 {
      PendingExactly(ss, ls, n - 1, nonce);
      assert ls[n] == Apply(ls[n - 1], ss[n - 1]).ledger;
      hide IsRun, Apply, FreshNonces, Grants, Stands, PendingFrom;
      if Grants(ls[n - 1], ss[n - 1]) && ss[n - 1].nonce == nonce {
        PendingAfterGrant(ss, ls, n, nonce);
      } else {
        PendingAfterOther(ss, ls, n, nonce);
      }
    }
  }

  /** Standing for one section longer. */
  lemma StandsNext(ss: seq<Section>, ls: seq<Ledger>, j: nat, n: nat)
    requires 0 < n <= |ss| <= |ls|
    ensures Stands(ss, ls, j, n) <==>
              if j < n - 1 then Stands(ss, ls, j, n - 1) && !Ends(ls[n - 1], ss[n - 1], ss[j])
              else j == n - 1 && Grants(ls[j], ss[j])
  {
    hide Apply, Spends;
  }

  lemma PendingAfterGrant(ss: seq<Section>, ls: seq<Ledger>, n: nat, nonce: string)
    requires 0 < n <= |ss| < |ls| && FreshNonces(ss) && ls[n] == Apply(ls[n - 1], ss[n - 1]).ledger
    requires Grants(ls[n - 1], ss[n - 1]) && ss[n - 1].nonce == nonce
    ensures Stands(ss, ls, n - 1, n) && nonce in ls[n].nonces
    ensures forall j: nat | Stands(ss, ls, j, n) && ss[j].nonce == nonce :: PendingFrom(ss, ls, n, nonce, j)
  {
    NonceEffect(ls[n - 1], ss[n - 1], nonce);
    StandsNext(ss, ls, n - 1, n);
    hide Apply, Ends;
    forall j: nat | Stands(ss, ls, j, n) && ss[j].nonce == nonce ensures j == n - 1 {
      assert ss[j].Issue?;
    }
  }

  lemma PendingAfterOther(ss: seq<Section>, ls: seq<Ledger>, n: nat, nonce: string)
    requires 0 < n <= |ss| < |ls| && ls[n] == Apply(ls[n - 1], ss[n - 1]).ledger
    requires !(Grants(ls[n - 1], ss[n - 1]) && ss[n - 1].nonce == nonce)
    requires nonce in ls[n - 1].nonces <==> exists j: nat :: Stands(ss, ls, j, n - 1) && ss[j].nonce == nonce
    requires forall j: nat | Stands(ss, ls, j, n - 1) && ss[j].nonce == nonce :: PendingFrom(ss, ls, n - 1, nonce, j)
    ensures nonce in ls[n].nonces <==> exists j: nat :: Stands(ss, ls, j, n) && ss[j].nonce == nonce
    ensures forall j: nat | Stands(ss, ls, j, n) && ss[j].nonce == nonce :: PendingFrom(ss, ls, n, nonce, j)
  {
    NonceEffect(ls[n - 1], ss[n - 1], nonce);
    hide Apply, Spends, Grants;
    forall j: nat | Stands(ss, ls, j, n) && ss[j].nonce == nonce ensures PendingFrom(ss, ls, n, nonce, j) {
      StandsNext(ss, ls, j, n);
      assert PendingFrom(ss, ls, n - 1, nonce, j);
    }
    if nonce in ls[n].nonces {
      var j: nat :| Stands(ss, ls, j, n - 1) && ss[j].nonce == nonce;
      assert PendingFrom(ss, ls, n - 1, nonce, j);
      StandsNext(ss, ls, j, n);
    }
  }

  /** A recorded decision used a nonce issued to the same principal for the same house,
      less than 60 seconds before by the two calls' own timestamps. */
  lemma NonceIsBound(ss: seq<Section>, ls: seq<Ledger>, i: nat) returns (j: nat)
    requires IsRun(ss, ls) && FreshNonces(ss) && i < |ss| && Admits(ls[i], ss[i])
    ensures j < i && Grants(ls[j], ss[j]) && ss[j].nonce == ss[i].observation.submissionNonce
    ensures ss[j].principal == ss[i].principal && ss[j].houseId == ss[i].observation.houseId
    ensures ss[i].now < ss[j].now + 60 * SECOND
    ensures Stands(ss, ls, j, i)
  {
    var nonce := ss[i].observation.submissionNonce;
    PendingExactly(ss, ls, i, nonce);
    j :| Stands(ss, ls, j, i) && ss[j].nonce == nonce;
  }

  /** A nonce admits at most one decision over the whole run. */
  lemma NonceIsSingleUse(ss: seq<Section>, ls: seq<Ledger>, i: nat, k: nat)
    requires IsRun(ss, ls) && FreshNonces(ss) && i < |ss| && k < |ss|
    requires Admits(ls[i], ss[i]) && Admits(ls[k], ss[k])
    requires ss[i].observation.submissionNonce == ss[k].observation.submissionNonce
    ensures i == k
  {
    var a := NonceIsBound(ss, ls, i);
    var b := NonceIsBound(ss, ls, k);
    assert a == b;
    if i < k {
      assert Ends(ls[i], ss[i], ss[b]);
    } else if k < i {
      assert Ends(ls[k], ss[k], ss[a]);
    }
  }
}
