/** The certificate-bundle reader behind the Farmacenter trust override
    (`FarmacenterScraper.getFarmacenterSslFactory`): the bundled PEM text is
    cut into BEGIN/END certificate blocks, each stored under an alias
    `farmacenter-<n>`. Certificate decoding is library crypto, given as a
    predicate `decodes`.

    The scan itself does not depend on what the two marker lines say, only
    on both being non-empty, so it is stated for any marker pair and used with
    the certificate markers `CERT`. */
module Pem {
  import opened Wrappers
  import opened Text

  const BEGIN: string := "-----BEGIN CERTIFICATE-----"
  const END: string := "-----END CERTIFICATE-----"
  const ALIAS_PREFIX: string := "farmacenter-"

  datatype MarkerPair = MarkerPair(begin: string, end: string)

  /** A marker pair of non-empty markers; END being non-empty makes every
      block taken move the scan forward. */
  type Markers = m: MarkerPair | m.begin != [] && m.end != [] witness MarkerPair(['-'], ['-'])

  /** The markers of a PEM certificate block. */
  const CERT: Markers := MarkerPair(BEGIN, END)

  /** A BEGIN marker at `start` and the END marker that closes it at `finish`. */
  datatype Span = Span(start: nat, finish: nat)

  /** The span is what the scan takes: BEGIN at `start`, END at `finish`, and
      no END anywhere in between (`indexOf(end, start)` is the first one). */
  predicate Closes(m: Markers, pem: string, sp: Span) {
    && sp.start <= sp.finish
    && OccursAt(pem, m.begin, sp.start)
    && OccursAt(pem, m.end, sp.finish)
    && forall j | sp.start <= j < sp.finish :: !OccursAt(pem, m.end, j)
  }

  predicate AllClose(m: Markers, pem: string, ss: seq<Span>) {
    forall k | 0 <= k < |ss| :: Closes(m, pem, ss[k])
  }

  /** Position where the scan resumes after the spans `ss`, started at `pos`. */
  function ResumeAt(m: Markers, ss: seq<Span>, pos: nat): nat {
    if ss == [] then pos else ss[|ss| - 1].finish + |m.end|
  }

  /** No BEGIN at or after `at` is followed by an END: the scan has nothing
      more to take from `at` on. */
  predicate StopsAt(m: Markers, pem: string, at: nat) {
    forall s, f | at <= s <= f <= |pem| && OccursAt(pem, m.begin, s) :: !OccursAt(pem, m.end, f)
  }

  /** Every span lies inside the text, END not before BEGIN. */
  predicate SpansFit(m: Markers, pem: string, ss: seq<Span>) {
    forall k | 0 <= k < |ss| :: ss[k].start <= ss[k].finish && ss[k].finish + |m.end| <= |pem|
  }

  /** One iteration of the loop at lines 97-108: the next BEGIN at or after
      `pos` and the first END at or after it, if both exist. */
  function NextSpan(m: Markers, pem: string, pos: nat): (r: Option<Span>)
    requires pos <= |pem|
    ensures r.Some? ==> pos <= r.value.start <= r.value.finish && r.value.finish + |m.end| <= |pem|
  {
    var start := IndexOf(pem, m.begin, pos);
    if start < 0 then None
    else
      var finish := IndexOf(pem, m.end, start);
      if finish < 0 then None else Some(Span(start, finish))
  }

  /** The span taken is the first BEGIN after `pos` with the first END after
      it; there is none exactly when the scan stops at `pos`. */
  lemma NextSpanFirst(m: Markers, pem: string, pos: nat)
    requires pos <= |pem|
    ensures NextSpan(m, pem, pos).None? <==> StopsAt(m, pem, pos)
    ensures NextSpan(m, pem, pos).Some? ==>
      var sp := NextSpan(m, pem, pos).value;
      Closes(m, pem, sp) && forall j | pos <= j < sp.start :: !OccursAt(pem, m.begin, j)
  {
    var start := IndexOf(pem, m.begin, pos);
    IndexOfFirst(pem, m.begin, pos);
    if start >= 0 {
      IndexOfFirst(pem, m.end, start);
      var finish := IndexOf(pem, m.end, start);
      if finish < 0 {
        forall s, f | pos <= s <= f <= |pem| && OccursAt(pem, m.begin, s)
          ensures !OccursAt(pem, m.end, f)
        {
          assert start <= s;
        }
      }
    }
  }

  /** The spans the loop at lines 97-108 visits when started at `pos`, in
      the order it visits them. */
  function Spans(m: Markers, pem: string, pos: nat): (ss: seq<Span>)
    requires pos <= |pem|
    ensures SpansFit(m, pem, ss)
    decreases |pem| - pos
  {
    match NextSpan(m, pem, pos)
    case None => []
    case Some(sp) =>
      var rest := Spans(m, pem, sp.finish + |m.end|);
      var ss := [sp] + rest;
      assert forall k | 1 <= k < |ss| :: ss[k] == rest[k - 1];
      ss
  }

  /** Unfolding the scan by one block. */
  lemma SpansCons(m: Markers, pem: string, pos: nat)
    requires pos <= |pem| && NextSpan(m, pem, pos).Some?
    ensures var sp := NextSpan(m, pem, pos).value;
      Spans(m, pem, pos) == [sp] + Spans(m, pem, sp.finish + |m.end|)
  {
  }

  /** Every visited span is what the scan takes: BEGIN at its start, the
      first END after it at its finish. */
  lemma {:induction false} SpansClose(m: Markers, pem: string, pos: nat)
    requires pos <= |pem|
    ensures AllClose(m, pem, Spans(m, pem, pos))
    decreases |pem| - pos
  {
    if NextSpan(m, pem, pos).Some? {
      var sp := NextSpan(m, pem, pos).value;
      SpansClose(m, pem, sp.finish + |m.end|);
      NextSpanFirst(m, pem, pos);
      SpansCons(m, pem, pos);
      ClosesCons(m, pem, sp, Spans(m, pem, sp.finish + |m.end|), Spans(m, pem, pos));
    }
  }

  lemma ClosesCons(m: Markers, pem: string, sp: Span, rest: seq<Span>, ss: seq<Span>)
    requires ss == [sp] + rest && Closes(m, pem, sp) && AllClose(m, pem, rest)
    ensures AllClose(m, pem, ss)
  {
    assert forall k | 1 <= k < |ss| :: ss[k] == rest[k - 1];
  }

  /** Blocks are taken left to right: the first BEGIN is the first one at or
      after `pos`, and each later BEGIN is the first one after the previous
      END, so scanning resumes right after each END marker. */
  lemma {:induction false} SpansResume(m: Markers, pem: string, pos: nat)
    requires pos <= |pem|
    ensures var ss := Spans(m, pem, pos);
      |ss| > 0 ==> pos <= ss[0].start && forall j | pos <= j < ss[0].start :: !OccursAt(pem, m.begin, j)
    ensures var ss := Spans(m, pem, pos);
      forall k | 0 <= k < |ss| - 1 :: ss[k].finish + |m.end| <= ss[k + 1].start
    ensures var ss := Spans(m, pem, pos);
      forall k, j | 0 <= k < |ss| - 1 && ss[k].finish + |m.end| <= j < ss[k + 1].start ::
        !OccursAt(pem, m.begin, j)
    decreases |pem| - pos
  {
    NextSpanFirst(m, pem, pos);
    if NextSpan(m, pem, pos).Some? {
      var sp := NextSpan(m, pem, pos).value;
      SpansCons(m, pem, pos);
      SpansResume(m, pem, sp.finish + |m.end|);
      ResumeShift(m, pem, sp, Spans(m, pem, sp.finish + |m.end|));
    }
  }

  /** The gap facts of a scan extend to one more block in front of it. */
  lemma ResumeShift(m: Markers, pem: string, sp: Span, rest: seq<Span>)
    requires var next := sp.finish + |m.end|;
      |rest| > 0 ==> next <= rest[0].start && forall j | next <= j < rest[0].start :: !OccursAt(pem, m.begin, j)
    requires forall k | 0 <= k < |rest| - 1 :: rest[k].finish + |m.end| <= rest[k + 1].start
    requires forall k, j | 0 <= k < |rest| - 1 && rest[k].finish + |m.end| <= j < rest[k + 1].start ::
      !OccursAt(pem, m.begin, j)
    ensures var ss := [sp] + rest;
      forall k | 0 <= k < |ss| - 1 :: ss[k].finish + |m.end| <= ss[k + 1].start
    ensures var ss := [sp] + rest;
      forall k, j | 0 <= k < |ss| - 1 && ss[k].finish + |m.end| <= j < ss[k + 1].start ::
        !OccursAt(pem, m.begin, j)
  {
    var ss := [sp] + rest;
    assert forall k | 1 <= k < |ss| :: ss[k] == rest[k - 1];
  }

  /** The scan ends where no BEGIN is followed by an END any more; the text
      after the last block taken holds no further block. */
  lemma {:induction false} SpansStop(m: Markers, pem: string, pos: nat)
    requires pos <= |pem|
    ensures ResumeAt(m, Spans(m, pem, pos), pos) <= |pem|
    ensures StopsAt(m, pem, ResumeAt(m, Spans(m, pem, pos), pos))
    decreases |pem| - pos
  {
    if NextSpan(m, pem, pos).Some? {
      var sp := NextSpan(m, pem, pos).value;
      var next := sp.finish + |m.end|;
      SpansStop(m, pem, next);
      StopStep(m, pem, pos);
      StopsCarry(m, pem, ResumeAt(m, Spans(m, pem, pos), pos), ResumeAt(m, Spans(m, pem, next), next));
    } else {
      NextSpanFirst(m, pem, pos);
      SpansEmpty(m, pem, pos);
      StopsCarry(m, pem, ResumeAt(m, Spans(m, pem, pos), pos), pos);
    }
  }

  lemma SpansEmpty(m: Markers, pem: string, pos: nat)
    requires pos <= |pem| && NextSpan(m, pem, pos).None?
    ensures Spans(m, pem, pos) == []
  {
  }

  /** The stopping point of a scan that takes a block is that of the scan
      resumed after the block. */
  lemma StopStep(m: Markers, pem: string, pos: nat)
    requires pos <= |pem| && NextSpan(m, pem, pos).Some?
    ensures var next := NextSpan(m, pem, pos).value.finish + |m.end|;
      ResumeAt(m, Spans(m, pem, pos), pos) == ResumeAt(m, Spans(m, pem, next), next)
  {
    var sp := NextSpan(m, pem, pos).value;
    SpansCons(m, pem, pos);
    ResumeAtCons(m, sp, Spans(m, pem, sp.finish + |m.end|), pos);
  }

  lemma StopsCarry(m: Markers, pem: string, a: nat, b: nat)
    requires a == b && b <= |pem| && StopsAt(m, pem, b)
    ensures a <= |pem| && StopsAt(m, pem, a)
  {
  }

  lemma ResumeAtCons(m: Markers, sp: Span, rest: seq<Span>, pos: nat)
    ensures ResumeAt(m, [sp] + rest, pos) == ResumeAt(m, rest, sp.finish + |m.end|)
  {
    if rest != [] {
      assert ([sp] + rest)[|rest|] == rest[|rest| - 1];
    }
  }

  /** Blocks visited by a scan are pairwise disjoint and in text order. */
  lemma {:induction false} SpansDisjoint(m: Markers, pem: string, pos: nat, k: nat, n: nat)
    requires pos <= |pem|
    requires k < n < |Spans(m, pem, pos)|
    ensures Spans(m, pem, pos)[k].finish + |m.end| <= Spans(m, pem, pos)[n].start
    decreases n - k
  {
    var ss := Spans(m, pem, pos);
    SpansResume(m, pem, pos);
    if k + 1 < n {
      SpansDisjoint(m, pem, pos, k + 1, n);
      assert ss[k + 1].start <= ss[k + 1].finish;
    }
  }

  /** With the certificate markers, an END marker cannot begin inside the
      BEGIN marker's first 22 characters, so a block always holds a complete
      BEGIN marker. */
  lemma EndAfterBegin(pem: string, s: nat, f: nat)
    requires OccursAt(pem, BEGIN, s) && OccursAt(pem, END, f) && s <= f
    ensures f >= s + 22
  {
    MatchesFromAll(pem, BEGIN, s, 0);
    assert END[..6] == "-----E";
    assert BEGIN[5] == 'B';
    assert forall i | 5 <= i < 22 :: BEGIN[i] != '-';
    forall p | s <= p < s + 22
      ensures !OccursAt(pem, END, p)
    {
      if p + |END| <= |pem| {
        MatchesFromAll(pem, END, p, 0);
        var d := p - s;
        var j := if d < 5 then 5 else d;
        assert END[..6][j - d] != BEGIN[j];
        assert pem[p + (j - d)] != END[j - d];
      }
    }
  }

  /** The text of one block, markers included. */
  function Block(m: Markers, pem: string, sp: Span): string
    requires sp.start <= sp.finish && sp.finish + |m.end| <= |pem|
  {
    pem[sp.start..sp.finish + |m.end|]
  }

  /** A block that is long enough to hold its BEGIN marker starts with the
      BEGIN marker and ends with the END marker. */
  lemma BlockShape(m: Markers, pem: string, sp: Span)
    requires Closes(m, pem, sp) && sp.finish + |m.end| <= |pem|
    requires sp.start + |m.begin| <= sp.finish + |m.end|
    ensures Block(m, pem, sp)[..|m.begin|] == m.begin
    ensures Block(m, pem, sp)[|Block(m, pem, sp)| - |m.end|..] == m.end
  {
    OccursAtSlice(pem, m.begin, sp.start);
    OccursAtSlice(pem, m.end, sp.finish);
    var b := Block(m, pem, sp);
    assert b[..|m.begin|] == pem[sp.start..sp.start + |m.begin|];
    assert b[|b| - |m.end|..] == pem[sp.finish..sp.finish + |m.end|];
  }

  function Alias(n: nat): string {
    ALIAS_PREFIX + NatToString(n)
  }

  /** Consecutive numbering never reuses an alias. */
  lemma AliasInjective(a: nat, b: nat)
    requires Alias(a) == Alias(b)
    ensures a == b
  {
    assert NatToString(a) == Alias(a)[|ALIAS_PREFIX|..];
    assert NatToString(b) == Alias(b)[|ALIAS_PREFIX|..];
    NatToStringInjective(a, b);
  }

  datatype TrustEntry = TrustEntry(alias: string, block: string)

  datatype TrustError =
    | ResourceMissing      // getResourceAsStream returned null
    | CertificateInvalid   // generateCertificate rejected a block
    | NoCertificates       // the scan found no block

  /** Key-store entries for the spans `ss`, numbered from `first`. */
  function EntriesFrom(m: Markers, pem: string, ss: seq<Span>, first: nat): (es: seq<TrustEntry>)
    requires SpansFit(m, pem, ss)
    ensures |es| == |ss|
  {
    seq(|ss|, i requires 0 <= i < |ss| => TrustEntry(Alias(first + i), Block(m, pem, ss[i])))
  }

  /** Reference definition of the entries read from a bundle: every block in
      scan order, numbered from 0; a block that does not decode, or a bundle
      without blocks, is an error. */
  function BundleEntries(m: Markers, pem: string, decodes: string -> bool): Result<seq<TrustEntry>, TrustError> {
    var ss := Spans(m, pem, 0);
    var es := EntriesFrom(m, pem, ss, 0);
    if exists k | 0 <= k < |es| :: !decodes(es[k].block) then Failure(CertificateInvalid)
    else if ss == [] then Failure(NoCertificates)
    else Success(es)
  }

  /** Reference definition of the trust material built from the bundled
      resource. */
  function TrustMaterial(resource: Option<string>, decodes: string -> bool): Result<seq<TrustEntry>, TrustError> {
    match resource
    case None => Failure(ResourceMissing)
    case Some(pem) => BundleEntries(CERT, pem, decodes)
  }

  /** Entries are `farmacenter-0`, `farmacenter-1`, ... in block order, each
      holding a block that starts with BEGIN and ends with END; a missing
      resource or a bundle without blocks is an error. */
  lemma TrustMaterialShape(resource: Option<string>, decodes: string -> bool)
    ensures resource.None? ==> TrustMaterial(resource, decodes) == Failure(ResourceMissing)
    ensures resource.Some? && Spans(CERT, resource.value, 0) == [] ==>
      TrustMaterial(resource, decodes) == Failure(NoCertificates)
    ensures TrustMaterial(resource, decodes).Success? ==>
      var es := TrustMaterial(resource, decodes).value;
      && |es| > 0
      && (forall k | 0 <= k < |es| :: es[k].alias == Alias(k))
      && (forall k | 0 <= k < |es| ::
            |es[k].block| >= |BEGIN| && es[k].block[..|BEGIN|] == BEGIN
            && es[k].block[|es[k].block| - |END|..] == END)
  {
    if resource.Some? {
      var pem := resource.value;
      SpansClose(CERT, pem, 0);
      CertSpansLong(pem, Spans(CERT, pem, 0));
      EntriesShape(CERT, pem, Spans(CERT, pem, 0), 0);
    }
  }

  /** The entries for closed spans long enough to hold their BEGIN marker
      hold blocks that start with BEGIN and end with END. */
  lemma EntriesShape(m: Markers, pem: string, ss: seq<Span>, first: nat)
    requires SpansFit(m, pem, ss) && AllClose(m, pem, ss)
    requires forall k | 0 <= k < |ss| :: ss[k].start + |m.begin| <= ss[k].finish + |m.end|
    ensures var es := EntriesFrom(m, pem, ss, first);
      forall k | 0 <= k < |es| ::
        |es[k].block| >= |m.begin| && es[k].block[..|m.begin|] == m.begin
        && es[k].block[|es[k].block| - |m.end|..] == m.end
  {
    var es := EntriesFrom(m, pem, ss, first);
    forall k | 0 <= k < |es|
      ensures |es[k].block| >= |m.begin| && es[k].block[..|m.begin|] == m.begin
      ensures es[k].block[|es[k].block| - |m.end|..] == m.end
    {
      assert Closes(m, pem, ss[k]);
      BlockShape(m, pem, ss[k]);
    }
  }

  /** Spans that close with the certificate markers hold a whole BEGIN
      marker. */
  lemma CertSpansLong(pem: string, ss: seq<Span>)
    requires AllClose(CERT, pem, ss)
    ensures forall k | 0 <= k < |ss| :: ss[k].start + |BEGIN| <= ss[k].finish + |END|
  {
    forall k | 0 <= k < |ss|
      ensures ss[k].start + |BEGIN| <= ss[k].finish + |END|
    {
      assert Closes(CERT, pem, ss[k]);
      EndAfterBegin(pem, ss[k].start, ss[k].finish);
    }
  }

  /** The loop's state: `done` are the first blocks of the whole scan `all`,
      the rest is what the scan from `pos` visits, and `entries` numbers the
      blocks taken so far, all of which decode. */
  predicate LoopState(m: Markers, pem: string, all: seq<Span>, done: seq<Span>, pos: nat,
                      entries: seq<TrustEntry>, decodes: string -> bool) {
    && pos <= |pem|
    && SpansFit(m, pem, done)
    && all == done + Spans(m, pem, pos)
    && |entries| == |done|
    && (forall k | 0 <= k < |done| :: entries[k] == TrustEntry(Alias(k), Block(m, pem, done[k])))
    && (forall k | 0 <= k < |entries| :: decodes(entries[k].block))
  }

  /** Before the first iteration nothing is taken. */
  lemma LoopInit(m: Markers, pem: string, decodes: string -> bool)
    ensures LoopState(m, pem, Spans(m, pem, 0), [], 0, [], decodes)
  {
    assert [] + Spans(m, pem, 0) == Spans(m, pem, 0);
  }

  /** Taking one more block that decodes keeps the loop's state. */
  lemma LoopStep(m: Markers, pem: string, all: seq<Span>, done: seq<Span>, pos: nat,
                 entries: seq<TrustEntry>, decodes: string -> bool)
    requires LoopState(m, pem, all, done, pos, entries, decodes)
    requires NextSpan(m, pem, pos).Some?
    requires decodes(Block(m, pem, NextSpan(m, pem, pos).value))
    ensures var sp := NextSpan(m, pem, pos).value;
      LoopState(m, pem, all, done + [sp], sp.finish + |m.end|,
                entries + [TrustEntry(Alias(|done|), Block(m, pem, sp))], decodes)
  {
    var sp := NextSpan(m, pem, pos).value;
    var next := sp.finish + |m.end|;
    SpansCons(m, pem, pos);
    AppendAssoc(done, sp, Spans(m, pem, next));
    EntriesStep(m, pem, done, sp, entries, decodes);
  }

  lemma AppendAssoc(done: seq<Span>, sp: Span, rest: seq<Span>)
    ensures done + ([sp] + rest) == (done + [sp]) + rest
  {
  }

  lemma EntriesStep(m: Markers, pem: string, done: seq<Span>, sp: Span, entries: seq<TrustEntry>,
                    decodes: string -> bool)
    requires SpansFit(m, pem, done) && sp.start <= sp.finish && sp.finish + |m.end| <= |pem|
    requires |entries| == |done|
    requires forall k | 0 <= k < |done| :: entries[k] == TrustEntry(Alias(k), Block(m, pem, done[k]))
    requires forall k | 0 <= k < |entries| :: decodes(entries[k].block)
    requires decodes(Block(m, pem, sp))
    ensures var ds, es := done + [sp], entries + [TrustEntry(Alias(|done|), Block(m, pem, sp))];
      && SpansFit(m, pem, ds)
      && |es| == |ds|
      && (forall k | 0 <= k < |ds| :: es[k] == TrustEntry(Alias(k), Block(m, pem, ds[k])))
      && (forall k | 0 <= k < |es| :: decodes(es[k].block))
  {
    var ds, es := done + [sp], entries + [TrustEntry(Alias(|done|), Block(m, pem, sp))];
    assert forall k | 0 <= k < |done| :: ds[k] == done[k] && es[k] == entries[k];
  }

  /** A block that does not decode fails the whole bundle. */
  lemma LoopReject(m: Markers, pem: string, all: seq<Span>, done: seq<Span>, pos: nat,
                   entries: seq<TrustEntry>, decodes: string -> bool)
    requires all == Spans(m, pem, 0) && LoopState(m, pem, all, done, pos, entries, decodes)
    requires NextSpan(m, pem, pos).Some?
    requires !decodes(Block(m, pem, NextSpan(m, pem, pos).value))
    ensures BundleEntries(m, pem, decodes) == Failure(CertificateInvalid)
  {
    var sp := NextSpan(m, pem, pos).value;
    SpansCons(m, pem, pos);
    var ss := Spans(m, pem, 0);
    assert ss[|done|] == sp;
    var es := EntriesFrom(m, pem, ss, 0);
    assert !decodes(es[|done|].block);
  }

  /** When the scan is over, the collected entries are the bundle's. */
  lemma LoopDone(m: Markers, pem: string, all: seq<Span>, done: seq<Span>, pos: nat,
                 entries: seq<TrustEntry>, decodes: string -> bool)
    requires all == Spans(m, pem, 0) && LoopState(m, pem, all, done, pos, entries, decodes)
    requires NextSpan(m, pem, pos).None?
    ensures BundleEntries(m, pem, decodes) ==
      if entries == [] then Failure(NoCertificates) else Success(entries)
  {
    assert Spans(m, pem, 0) == done;
    var es := EntriesFrom(m, pem, done, 0);
    assert es == entries;
  }

  /** The two searches of one loop iteration decide the next span. */
  lemma NextSpanFound(m: Markers, pem: string, pos: nat)
    requires pos <= |pem|
    ensures var start := IndexOf(pem, m.begin, pos);
      && (start < 0 ==> NextSpan(m, pem, pos).None?)
      && (start >= 0 && IndexOf(pem, m.end, start) < 0 ==> NextSpan(m, pem, pos).None?)
      && (start >= 0 && IndexOf(pem, m.end, start) >= 0 ==>
            NextSpan(m, pem, pos) == Some(Span(start, IndexOf(pem, m.end, start))))
  {
  }

  /** The loop of lines 95-111 as written: scan, decode and number each
      block, then fail when nothing was found. */
  method ReadBundle(m: Markers, pem: string, decodes: string -> bool)
    returns (r: Result<seq<TrustEntry>, TrustError>)
    ensures r == BundleEntries(m, pem, decodes)
  {
    var entries: seq<TrustEntry> := [];
    var idx := 0;
    var pos := 0;
    var any := false;
    ghost var done: seq<Span> := [];
    ghost var all := Spans(m, pem, 0);
    LoopInit(m, pem, decodes);
    while true
      invariant LoopState(m, pem, all, done, pos, entries, decodes)
      invariant idx == |entries|
      invariant any <==> idx > 0
      decreases |pem| - pos
    {
      var start := IndexOf(pem, m.begin, pos);
      if start < 0 {
        NextSpanFound(m, pem, pos);
        break;
      }
      var finish := IndexOf(pem, m.end, start);
      if finish < 0 {
        NextSpanFound(m, pem, pos);
        break;
      }
      var block := pem[start..finish + |m.end|];
      ghost var sp := Span(start, finish);
      NextSpanFound(m, pem, pos);
      assert block == Block(m, pem, sp);
      if !decodes(block) {
        LoopReject(m, pem, all, done, pos, entries, decodes);
        return Failure(CertificateInvalid);
      }
      LoopStep(m, pem, all, done, pos, entries, decodes);
      entries := entries + [TrustEntry(Alias(idx), block)];
      idx := idx + 1;
      pos := finish + |m.end|;
      any := true;
      done := done + [sp];
    }
    LoopDone(m, pem, all, done, pos, entries, decodes);
    if !any {
      return Failure(NoCertificates);
    }
    return Success(entries);
  }

  /** Lines 81-111: a missing resource is an error; otherwise the bundle is
      read with the certificate markers. */
  method LoadTrustMaterial(resource: Option<string>, decodes: string -> bool)
    returns (r: Result<seq<TrustEntry>, TrustError>)
    ensures r == TrustMaterial(resource, decodes)
  {
    if resource.None? {
      return Failure(ResourceMissing);
    }
    r := ReadBundle(CERT, resource.value, decodes);
  }
}
