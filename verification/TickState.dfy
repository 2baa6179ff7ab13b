/**
 The three-clock tick cursor (crates/rocket-surgeon-worker/src/tick.rs). The wall
 clock is left out; everything else a position reports is here.
 */
module TickClock {
  import opened Prelude

  datatype Phase = Prefill | Decode | PrefillChunked(chunkSize: nat, chunkIndex: nat, totalChunks: nat)

  datatype Tick = Tick(
    rank: nat,
    layer: nat,
    component: string,
    callIndex: nat,
    stepCount: nat,
    phase: Phase,
    token: nat,
    operator: nat,
    tokenPosition: Option<nat>)

  function Start(rank: nat): Tick {
    Tick(rank, 0, "", 0, 0, Prefill, 0, 0, None)
  }

  function Advanced(t: Tick, component: string, layer: nat, callIndex: nat): Tick {
    t.(operator := t.operator + 1, layer := layer, component := component, callIndex := callIndex,
       stepCount := t.stepCount + 1, tokenPosition := Some(t.token))
  }

  function TokenAdvanced(t: Tick): Tick {
    t.(token := t.token + 1, operator := 0, tokenPosition := Some(t.token + 1),
       phase := if t.phase.Prefill? then Decode else t.phase)
  }

  class TickState {
    var rank: nat
    var layer: nat
    var component: string
    var callIndex: nat
    var stepCount: nat
    var phase: Phase
    var token: nat
    var operator: nat
    var tokenPosition: Option<nat>

    ghost function Value(): Tick
      reads this
    {
      Tick(rank, layer, component, callIndex, stepCount, phase, token, operator, tokenPosition)
    }

    constructor (rank: nat)
      ensures Value() == Start(rank)
      ensures this.rank == rank && layer == 0 && component == "" && callIndex == 0 && stepCount == 0
      ensures phase == Prefill && token == 0 && operator == 0 && tokenPosition == None
    {
      this.rank, layer, component, callIndex, stepCount := rank, 0, "", 0, 0;
      phase, token, operator, tokenPosition := Prefill, 0, 0, None;
    }

    method Advance(component: string, layer: nat, callIndex: nat)
      modifies this
      ensures Value() == Advanced(old(Value()), component, layer, callIndex)
      ensures this.component == component && this.layer == layer && this.callIndex == callIndex
      ensures operator == old(operator) + 1 && stepCount == old(stepCount) + 1 && tokenPosition == Some(token)
      ensures rank == old(rank) && phase == old(phase) && token == old(token)
    {
      operator := operator + 1;
      this.layer := layer;
      this.component := component;
      this.callIndex := callIndex;
      stepCount := stepCount + 1;
      tokenPosition := Some(token);
    }

    method AdvanceToken()
      modifies this
      ensures Value() == TokenAdvanced(old(Value()))
      ensures token == old(token) + 1 && operator == 0 && tokenPosition == Some(token)
      ensures phase == if old(phase).Prefill? then Decode else old(phase)
      ensures rank == old(rank) && layer == old(layer) && component == old(component)
      ensures callIndex == old(callIndex) && stepCount == old(stepCount)
    {
      token := token + 1;
      operator := 0;
      tokenPosition := Some(token);
      if phase.Prefill? {
        phase := Decode;
      }
    }
  }
}
