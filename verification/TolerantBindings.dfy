/** Bindings of the tolerant scanner, and what their bounded targets are
    guaranteed to cover (`crates/krit-assist/src/context.rs`). */
module TolerantBindings {
  import opened Utf8
  import opened Wrappers
  import opened RedactionTargets
  import opened SourceSpans
  import opened TolerantReference

  /** A declaration in progress: what its value contributes, and where the value
      has been seen so far. */
  datatype PendingBinding = PendingBinding(
    name: Text,
    targets: Targets,
    valueStart: Option<nat>,
    valueEnd: nat,
    depth: nat,
    scope: nat)

  function NewBinding(name: Text, depth: nat, scope: nat): PendingBinding {
    PendingBinding(name, NOTHING, None, 0, depth, scope)
  }

  function ValueRange(source: Text, p: PendingBinding): Option<Range> {
    if p.valueStart.None? then None else CharRange(source, p.valueStart.value, p.valueEnd)
  }

  /** `finish`: overflowed targets also get the range of the whole value. */
  function Finish(source: Text, p: PendingBinding): Targets {
    var range := ValueRange(source, p);
    if p.targets.overflowed && range.Some? then AddRange(p.targets, range.value) else p.targets
  }

  /** `in_progress`: what is known of an unfinished binding. */
  function InProgress(source: Text, p: PendingBinding): Targets {
    var range := ValueRange(source, p);
    if range.Some? then AddRange(p.targets, range.value) else p.targets
  }

  function Touch(p: PendingBinding, start: nat, end: nat): PendingBinding {
    p.(valueStart := if p.valueStart.Some? then p.valueStart else Some(start), valueEnd := end)
  }

  function TouchAll(pending: seq<PendingBinding>, start: nat, end: nat): seq<PendingBinding> {
    seq(|pending|, i requires 0 <= i < |pending| => Touch(pending[i], start, end))
  }

  function InheritAll(pending: seq<PendingBinding>, value: Targets): seq<PendingBinding> {
    seq(|pending|, i requires 0 <= i < |pending| => pending[i].(targets := Merge(pending[i].targets, value)))
  }

  function RecordAll(pending: seq<PendingBinding>, span: Range): seq<PendingBinding> {
    seq(|pending|, i requires 0 <= i < |pending| => pending[i].(targets := AddSpan(pending[i].targets, span)))
  }

  // ----- What targets promise

  /** Bounded, in the source, on character boundaries. */
  predicate TargetsOk(source: Text, t: Targets) {
    t.Bounded() && AllOk(t.Regions(), Boundaries(source))
  }

  /** Every byte of the region is covered. */
  ghost predicate Holds(regions: seq<Range>, region: Range) {
    forall b :: Inside(region, b) ==> Covers(regions, b)
  }

  /** The literals numbered in `ks` are covered. */
  ghost predicate HoldsAll(regions: seq<Range>, literals: seq<Range>, ks: set<nat>) {
    forall k :: k in ks ==> k < |literals| && Holds(regions, literals[k])
  }

  ghost predicate Carries(source: Text, t: Targets, literals: seq<Range>, ks: set<nat>) {
    TargetsOk(source, t) && HoldsAll(t.Regions(), literals, ks) && !t.untraceable
  }

  lemma NothingCarries(source: Text, literals: seq<Range>)
    ensures Carries(source, NOTHING, literals, {}) && TargetsOk(source, UNTRACEABLE)
  {
    assert NOTHING.Regions() == [] && UNTRACEABLE.Regions() == [];
  }

  lemma MoreLiterals(source: Text, t: Targets, literals: seq<Range>, literal: Range, ks: set<nat>)
    requires Carries(source, t, literals, ks)
    ensures Carries(source, t, literals + [literal], ks)
  {
  }

  lemma MergeCarries(source: Text, t: Targets, other: Targets, literals: seq<Range>, ks: set<nat>, more: set<nat>)
    requires Carries(source, t, literals, ks) && Carries(source, other, literals, more)
    ensures Carries(source, Merge(t, other), literals, ks + more)
  {
    MergeAbsorbs(t, other);
    MergeOk(t, other, Boundaries(source));
    MergeKeepsTrace(t, other);
  }

  lemma AddRangeCarries(source: Text, t: Targets, range: Range, literals: seq<Range>, ks: set<nat>)
    requires Carries(source, t, literals, ks) && RegionOk(range, Boundaries(source))
    ensures Carries(source, AddRange(t, range), literals, ks)
  {
    AddRangeAbsorbs(t, range);
    AddRangeOk(t, range, Boundaries(source));
  }

  lemma AddSpanCarries(source: Text, t: Targets, span: Range, literals: seq<Range>, ks: set<nat>, k: nat)
    requires Carries(source, t, literals, ks) && RegionOk(span, Boundaries(source))
    requires k < |literals| && literals[k] == span
    ensures Carries(source, AddSpan(t, span), literals, ks + {k})
  {
    AddSpanAbsorbs(t, span);
    AddSpanOk(t, span, Boundaries(source));
    AddSpanKeepsTrace(t, span);
    forall b | Inside(span, b) ensures Covers(AddSpan(t, span).Regions(), b) {
      CoversAt([span], 0, b);
    }
  }

  lemma RangeIsOk(source: Text, p: PendingBinding)
    ensures var range := ValueRange(source, p);
            range.Some? ==> RegionOk(range.value, Boundaries(source))
  {
  }

  lemma FinishCarries(source: Text, p: PendingBinding, literals: seq<Range>, ks: set<nat>)
    requires Carries(source, p.targets, literals, ks)
    ensures Carries(source, Finish(source, p), literals, ks) && Carries(source, InProgress(source, p), literals, ks)
  {
    RangeIsOk(source, p);
    var range := ValueRange(source, p);
    if range.Some? {
      AddRangeCarries(source, p.targets, range.value, literals, ks);
    }
  }

  // ----- The stack of declarations in progress

  predicate Agrees(p: PendingBinding, held: Held) {
    p.name == held.name && p.depth == held.depth && p.scope == held.scope
  }

  /** The stack is the reference's: each declaration belongs to a live scope,
      scopes never decrease up the stack, and each carries the literals of its
      taint. */
  ghost predicate PendingOk(source: Text, pending: seq<PendingBinding>, held: seq<Held>, literals: seq<Range>,
                            live: nat) {
    && |held| == |pending|
    && (forall i :: 0 <= i < |pending| ==> pending[i].scope < live)
    && (forall i, j :: 0 <= i < j < |pending| ==> pending[i].scope <= pending[j].scope)
    && (forall i :: 0 <= i < |pending| ==>
          Agrees(pending[i], held[i]) && Carries(source, pending[i].targets, literals, held[i].taint))
  }

  lemma TouchOk(source: Text, pending: seq<PendingBinding>, held: seq<Held>, literals: seq<Range>, live: nat,
                start: nat, end: nat)
    requires PendingOk(source, pending, held, literals, live)
    ensures PendingOk(source, TouchAll(pending, start, end), held, literals, live)
  {
  }

  lemma InheritOk(source: Text, pending: seq<PendingBinding>, held: seq<Held>, literals: seq<Range>, live: nat,
                  value: Targets, ks: set<nat>)
    requires PendingOk(source, pending, held, literals, live) && Carries(source, value, literals, ks)
    ensures PendingOk(source, InheritAll(pending, value), TaintAll(held, ks), literals, live)
  {
    forall i | 0 <= i < |pending|
      ensures Carries(source, InheritAll(pending, value)[i].targets, literals, TaintAll(held, ks)[i].taint)
    {
      MergeCarries(source, pending[i].targets, value, literals, held[i].taint, ks);
    }
  }

  lemma RecordOk(source: Text, pending: seq<PendingBinding>, held: seq<Held>, literals: seq<Range>, live: nat,
                 span: Range)
    requires PendingOk(source, pending, held, literals, live) && RegionOk(span, Boundaries(source))
    ensures PendingOk(source, RecordAll(pending, span), TaintAll(held, {|literals|}), literals + [span], live)
  {
    forall i | 0 <= i < |pending|
      ensures Carries(source, RecordAll(pending, span)[i].targets, literals + [span],
                      TaintAll(held, {|literals|})[i].taint)
    {
      MoreLiterals(source, pending[i].targets, literals, span, held[i].taint);
      AddSpanCarries(source, pending[i].targets, span, literals + [span], held[i].taint, |literals|);
    }
  }

  // ----- Scopes

  type Frame = map<Text, Targets>

  /** One name of a scope: a parameter is untraceable, any other name carries
      the literals of its taint. */
  ghost predicate BindingOk(source: Text, value: Targets, taint: Option<set<nat>>, literals: seq<Range>) {
    match taint
    case None => value.untraceable && TargetsOk(source, value)
    case Some(ks) => Carries(source, value, literals, ks)
  }

  ghost predicate FrameOk(source: Text, frame: Frame, known: Taints, literals: seq<Range>) {
    frame.Keys == known.Keys && forall name :: name in frame ==> BindingOk(source, frame[name], known[name], literals)
  }

  ghost predicate ScopesOk(source: Text, scopes: seq<Frame>, known: seq<Taints>, literals: seq<Range>) {
    |known| == |scopes| && forall i :: 0 <= i < |scopes| ==> FrameOk(source, scopes[i], known[i], literals)
  }

  lemma ScopesMoreLiterals(source: Text, scopes: seq<Frame>, known: seq<Taints>, literals: seq<Range>, literal: Range)
    requires ScopesOk(source, scopes, known, literals)
    ensures ScopesOk(source, scopes, known, literals + [literal])
  {
    forall i, name | 0 <= i < |scopes| && name in scopes[i]
      ensures BindingOk(source, scopes[i][name], known[i][name], literals + [literal])
    {
      assert FrameOk(source, scopes[i], known[i], literals);
      assert BindingOk(source, scopes[i][name], known[i][name], literals);
      if known[i][name].Some? {
        MoreLiterals(source, scopes[i][name], literals, literal, known[i][name].value);
      }
    }
  }

  lemma BindOk(source: Text, scopes: seq<Frame>, known: seq<Taints>, literals: seq<Range>, at: nat, name: Text,
               value: Targets, ks: set<nat>)
    requires ScopesOk(source, scopes, known, literals) && at < |scopes| && Carries(source, value, literals, ks)
    ensures ScopesOk(source, scopes[at := scopes[at][name := value]], known[at := known[at][name := Some(ks)]],
                     literals)
  {
    assert FrameOk(source, scopes[at], known[at], literals);
    assert FrameOk(source, scopes[at][name := value], known[at][name := Some(ks)], literals);
  }

  /** The scanner finds a name in the scope the reference does. */
  lemma {:induction false} SameBarrier(source: Text, scopes: seq<Frame>, known: seq<Taints>, literals: seq<Range>,
                                       name: Text)
    requires ScopesOk(source, scopes, known, literals)
    ensures Barrier(scopes, name) == Barrier(known, name)
    decreases |scopes|
  {
    if scopes != [] {
      var top := |scopes| - 1;
      assert FrameOk(source, scopes[top], known[top], literals);
      SameBarrier(source, scopes[..top], known[..top], literals, name);
    }
  }
}
