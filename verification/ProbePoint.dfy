/**
 Probe points `model:rank:layer:component:call_index:event` and the pattern
 relation between them (crates/rocket-surgeon-probes/src/grammar.rs).
 */
module ProbePoints {

  datatype NameOrWild = AnyName | Name(name: string)

  datatype NumOrWild = AnyNum | Num(num: nat)

  datatype Segment = Named(name: string) | Indexed(name: string, index: nat)

  datatype ComponentOrWild = AnyComponent | Path(segments: seq<Segment>)

  datatype ProbePoint = ProbePoint(
    model: NameOrWild,
    rank: NumOrWild,
    layer: NumOrWild,
    component: ComponentOrWild,
    callIndex: NumOrWild,
    event: NameOrWild)

  predicate NameMatches(pattern: NameOrWild, target: NameOrWild) {
    match (pattern, target)
    case (AnyName, _) => true
    case (_, AnyName) => true
    case (Name(a), Name(b)) => a == b
  }

  predicate NumMatches(pattern: NumOrWild, target: NumOrWild) {
    match (pattern, target)
    case (AnyNum, _) => true
    case (_, AnyNum) => true
    case (Num(a), Num(b)) => a == b
  }

  predicate ComponentMatches(pattern: ComponentOrWild, target: ComponentOrWild) {
    match (pattern, target)
    case (AnyComponent, _) => true
    case (_, AnyComponent) => true
    case (Path(a), Path(b)) => a == b
  }

  predicate Matches(pattern: ProbePoint, target: ProbePoint) {
    && NameMatches(pattern.model, target.model)
    && NumMatches(pattern.rank, target.rank)
    && NumMatches(pattern.layer, target.layer)
    && ComponentMatches(pattern.component, target.component)
    && NumMatches(pattern.callIndex, target.callIndex)
    && NameMatches(pattern.event, target.event)
  }

  /** A point none of whose fields is a wildcard. */
  predicate Concrete(p: ProbePoint) {
    p.model.Name? && p.rank.Num? && p.layer.Num? && p.component.Path? && p.callIndex.Num? && p.event.Name?
  }

  /** The set of concrete points a pattern stands for. */
  ghost predicate Covers(pattern: ProbePoint, point: ProbePoint) {
    && Concrete(point)
    && (pattern.model.Name? ==> pattern.model == point.model)
    && (pattern.rank.Num? ==> pattern.rank == point.rank)
    && (pattern.layer.Num? ==> pattern.layer == point.layer)
    && (pattern.component.Path? ==> pattern.component == point.component)
    && (pattern.callIndex.Num? ==> pattern.callIndex == point.callIndex)
    && (pattern.event.Name? ==> pattern.event == point.event)
  }

  /** A concrete point both patterns stand for, when there is one. */
  function CommonPoint(a: ProbePoint, b: ProbePoint): ProbePoint {
    ProbePoint(
      if a.model.Name? then a.model else if b.model.Name? then b.model else Name("x"),
      if a.rank.Num? then a.rank else if b.rank.Num? then b.rank else Num(0),
      if a.layer.Num? then a.layer else if b.layer.Num? then b.layer else Num(0),
      if a.component.Path? then a.component else if b.component.Path? then b.component else Path([Named("x")]),
      if a.callIndex.Num? then a.callIndex else if b.callIndex.Num? then b.callIndex else Num(0),
      if a.event.Name? then a.event else if b.event.Name? then b.event else Name("x"))
  }

  lemma CommonPointCovered(a: ProbePoint, b: ProbePoint)
    requires Matches(a, b)
    ensures Covers(a, CommonPoint(a, b)) && Covers(b, CommonPoint(a, b))
  {
  }

  lemma CoveredMatches(a: ProbePoint, b: ProbePoint, p: ProbePoint)
    requires Covers(a, p) && Covers(b, p)
    ensures Matches(a, b)
  {
  }

  /** `matches` is exactly "the two patterns have a concrete point in common". */
  lemma MatchesIffCommonPoint(a: ProbePoint, b: ProbePoint)
    ensures Matches(a, b) <==> exists p :: Covers(a, p) && Covers(b, p)
  {
    if Matches(a, b) {
      CommonPointCovered(a, b);
    }
    forall p | Covers(a, p) && Covers(b, p) ensures Matches(a, b) {
      CoveredMatches(a, b, p);
    }
  }
}
