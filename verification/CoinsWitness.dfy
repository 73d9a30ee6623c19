/** A view and its sibling that tracks only witness outputs. The sibling gets the
    witness coins, is told of every spend with fresh entries kept, and is flushed,
    uncached and stacked together with the main view. */
module CoinsWitness {
  import opened CoinsModel
  import opened Wrappers

  predicate IsWitness(out: TxOut) {
    out.Out? && out.isWitness
  }

  function Restrict(m: CoinMap): CoinMap {
    map p | p in m && IsWitness(m[p].out) :: m[p]
  }

  function RestrictAll(maps: seq<CoinMap>): seq<CoinMap> {
    seq(|maps|, i requires 0 <= i < |maps| => Restrict(maps[i]))
  }

  type Outputs = HashPoint -> TxOut

  /** An outpoint determines its output. */
  ghost predicate Determined(maps: seq<CoinMap>, output: Outputs) {
    forall i, p :: 0 <= i < |maps| && p in maps[i] ==> maps[i][p].out == output(p)
  }

  /** What the main view forwards to its sibling. */
  function Forwarded(op: Op): Option<Op> {
    match op
    case OpAdd(p, c, overwrite) => if IsWitness(c.out) then Some(op) else None
    case OpSpend(p, _) => Some(OpSpend(p, true))
    case OpFetch(_, _) => None
    case _ => Some(op)
  }

  ghost predicate InStep(main: View, side: View, output: Outputs) {
    && Coherent(main)
    && Coherent(side)
    && Determined(Levels(main), output)
    && Levels(side) == RestrictAll(Levels(main))
  }

  ghost predicate LegalBoth(maps: seq<CoinMap>, op: Op, output: Outputs) {
    Legal(maps, op) && (op.OpAdd? ==> op.c.out == output(op.p))
  }

  lemma RestrictPut(m: CoinMap, p: HashPoint, c: Coin)
    requires p in m ==> m[p].out == c.out
    ensures Restrict(m[p := c]) == if IsWitness(c.out) then Restrict(m)[p := c] else Restrict(m)
  {
    assert Restrict(m[p := c]) == if IsWitness(c.out) then Restrict(m)[p := c] else Restrict(m);
  }

  lemma RestrictRemove(m: CoinMap, p: HashPoint)
    ensures Restrict(m - {p}) == Restrict(m) - {p}
  {
    assert Restrict(m - {p}) == Restrict(m) - {p};
  }

  /** Restricting the plain maps and then taking the forwarded step is the same as
      taking the step and then restricting. */
  lemma PlainStepRestricts(maps: seq<CoinMap>, op: Op, output: Outputs)
    requires Determined(maps, output) && LegalBoth(maps, op, output)
    ensures Determined(PlainStep(maps, op), output)
    ensures RestrictAll(PlainStep(maps, op)) ==
      match Forwarded(op)
      case None => RestrictAll(maps)
      case Some(o) => PlainStep(RestrictAll(maps), o)
    ensures Forwarded(op).Some? ==> Legal(RestrictAll(maps), Forwarded(op).value)
  {
    match op
    case OpAdd(p, c, overwrite) => RestrictPut(maps[0], p, c);
    case OpSpend(p, _) => RestrictRemove(maps[0], p);
    case _ =>
  }

  ghost function SideStep(side: View, op: Op): View
    requires Coherent(side)
    requires Forwarded(op).Some? ==> Legal(Levels(side), Forwarded(op).value)
  {
    match Forwarded(op)
    case None => side
    case Some(o) => StepRefines(side, o); Step(side, o)
  }

  lemma BothStep(main: View, side: View, op: Op, output: Outputs)
    requires InStep(main, side, output) && LegalBoth(Levels(main), op, output)
    ensures |Levels(main)| == Depth(main) + 1
    ensures Forwarded(op).Some? ==> Legal(Levels(side), Forwarded(op).value)
    ensures InStep(Step(main, op), SideStep(side, op), output)
  {
    StepRefines(main, op);
    PlainStepRestricts(Levels(main), op, output);
    if Forwarded(op).Some? {
      StepRefines(side, Forwarded(op).value);
    }
  }

  ghost predicate LegalRunBoth(maps: seq<CoinMap>, ops: seq<Op>, output: Outputs)
    decreases |ops|
  {
    ops == [] || (LegalBoth(maps, ops[0], output) && LegalRunBoth(PlainStep(maps, ops[0]), ops[1..], output))
  }

  ghost function RunBoth(main: View, side: View, ops: seq<Op>, output: Outputs): (View, View)
    requires InStep(main, side, output) && LegalRunBoth(Levels(main), ops, output)
    decreases |ops|
  {
    if ops == [] then (main, side) else
    BothStep(main, side, ops[0], output);
    StepRefines(main, ops[0]);
    RunBoth(Step(main, ops[0]), SideStep(side, ops[0]), ops[1..], output)
  }

  /** Over any legal run the sibling shows, at every level, the main view's coins
      restricted to witness outputs; the main view itself runs as if alone. */
  lemma {:induction false} SiblingIsRestriction(main: View, side: View, ops: seq<Op>, output: Outputs)
    requires InStep(main, side, output) && LegalRunBoth(Levels(main), ops, output)
    ensures var (main', side') := RunBoth(main, side, ops, output);
      && InStep(main', side', output)
      && Levels(main') == PlainRun(Levels(main), ops)
      && Visible(side') == Restrict(PlainRun(Levels(main), ops)[0])
    decreases |ops|
  {
    if ops != [] {
      BothStep(main, side, ops[0], output);
      StepRefines(main, ops[0]);
      SiblingIsRestriction(Step(main, ops[0]), SideStep(side, ops[0]), ops[1..], output);
    }
    var (main', side') := RunBoth(main, side, ops, output);
    assert Visible(side') == Levels(side')[0];
  }
}
