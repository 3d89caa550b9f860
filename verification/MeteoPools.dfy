/** The two pools of the meteo subsystem under any number of tasks that allocate and free at the
    same time (rust/src/meteo/mod.rs, meteo_alloc and meteo_free). Each is two pool operations, a
    header and a payload; a step is one of them. */
module MeteoPools {

  import opened Options
  import Pools

  /** The sizes of MESSAGE_ARR and MESSAGE_PAYLOAD_ARR. */
  datatype Config = Config(numHeaders: nat, numPayloads: nat)

  /** The free elements; the headers of complete messages; those of allocations that have no payload
      yet; those of frees that have given the payload back; and the data pointers, which keep their
      last value in a free header. */
  datatype State = State(headers: set<nat>, payloads: set<nat>, live: set<nat>,
                         allocating: set<nat>, freeing: set<nat>, data: map<nat, nat>)

  datatype Step =
    | TakeHeader(h: nat)
    | TakePayload(h: nat, p: nat)
    | NoPayload(h: nat)
    | GivePayload(h: nat)
    | GiveHeader(h: nat)

  predicate Enabled(st: State, step: Step) {
    match step
    case TakeHeader(h) => h in st.headers
    case TakePayload(h, p) => h in st.allocating && p in st.payloads
    case NoPayload(h) => h in st.allocating && st.payloads == {}
    case GivePayload(h) => h in st.live && h in st.data
    case GiveHeader(h) => h in st.freeing
  }

  /** NoPayload is the fallback of meteo_alloc: it frees the header it took through meteo_free, which
      first gives back whatever payload the data pointer still leads to. */
  function Apply(st: State, step: Step): State
    requires Enabled(st, step)
  {
    match step
    case TakeHeader(h) => st.(headers := st.headers - {h}, allocating := st.allocating + {h})
    case TakePayload(h, p) =>
      st.(payloads := st.payloads - {p}, allocating := st.allocating - {h}, live := st.live + {h},
          data := st.data[h := p])
    case NoPayload(h) =>
      st.(payloads := if h in st.data then st.payloads + {st.data[h]} else st.payloads,
          allocating := st.allocating - {h}, freeing := st.freeing + {h})
    case GivePayload(h) =>
      st.(payloads := st.payloads + {st.data[h]}, live := st.live - {h}, freeing := st.freeing + {h})
    case GiveHeader(h) => st.(freeing := st.freeing - {h}, headers := st.headers + {h})
  }

  function Initial(cfg: Config): State {
    State(Pools.Below(cfg.numHeaders), Pools.Below(cfg.numPayloads), {}, {}, {}, map[])
  }

  /** The state after a schedule; a step that is not enabled when its turn comes does nothing. */
  function After(cfg: Config, schedule: seq<Step>): State {
    if schedule == [] then Initial(cfg)
    else
      var n := |schedule| - 1;
      var st := After(cfg, schedule[..n]);
      if Enabled(st, schedule[n]) then Apply(st, schedule[n]) else st
  }

  // -------------------------------------------------------- counting invariant

  /** Every header is in one of the four places, and every payload is free or belongs to one message. */
  ghost predicate Owned(cfg: Config, st: State) {
    && (forall h :: h in st.headers ==> h !in st.live && h !in st.allocating && h !in st.freeing)
    && (forall h :: h in st.live ==> h !in st.allocating && h !in st.freeing)
    && (forall h :: h in st.allocating ==> h !in st.freeing)
    && |st.headers| + |st.live| + |st.allocating| + |st.freeing| == cfg.numHeaders
    && |st.payloads| + |st.live| == cfg.numPayloads
    && (forall h :: h in st.live ==> h in st.data && st.data[h] !in st.payloads)
    && (forall h, k :: h in st.live && k in st.live && h != k ==> st.data[h] != st.data[k])
  }

  /** Free payloads are the free headers and the operations under way, shifted by the difference of
      the pool sizes. */
  lemma PayloadsAreCounted(cfg: Config, st: State)
    requires Owned(cfg, st)
    ensures |st.payloads| + cfg.numHeaders
            == |st.headers| + |st.allocating| + |st.freeing| + cfg.numPayloads
  {
  }

  lemma NoFallback(cfg: Config, st: State, h: nat)
    requires cfg.numPayloads >= cfg.numHeaders && Owned(cfg, st)
    ensures !Enabled(st, NoPayload(h))
  {
    if h in st.allocating {
      assert |st.allocating| >= 1 by {
        assert {h} <= st.allocating;
        assert st.allocating == {h} + (st.allocating - {h});
      }
      PayloadsAreCounted(cfg, st);
    }
  }

  lemma Without(s: set<nat>, x: nat)
    requires x in s
    ensures |s - {x}| + 1 == |s|
  {
    assert s == s - {x} + {x};
  }

  lemma With(s: set<nat>, x: nat)
    requires x !in s
    ensures |s + {x}| == |s| + 1
  {
  }

  lemma HeaderStepKeepsOwned(cfg: Config, st: State, step: Step)
    requires Owned(cfg, st) && Enabled(st, step) && (step.TakeHeader? || step.GiveHeader?)
    ensures Owned(cfg, Apply(st, step))
  {
    if step.TakeHeader? {
      Without(st.headers, step.h);
      With(st.allocating, step.h);
    } else {
      Without(st.freeing, step.h);
      With(st.headers, step.h);
    }
  }

  lemma TakePayloadKeepsOwned(cfg: Config, st: State, h: nat, p: nat)
    requires Owned(cfg, st) && Enabled(st, TakePayload(h, p))
    ensures Owned(cfg, Apply(st, TakePayload(h, p)))
  {
    Without(st.payloads, p);
    Without(st.allocating, h);
    With(st.live, h);
  }

  lemma GivePayloadKeepsOwned(cfg: Config, st: State, h: nat)
    requires Owned(cfg, st) && Enabled(st, GivePayload(h))
    ensures Owned(cfg, Apply(st, GivePayload(h)))
  {
    With(st.payloads, st.data[h]);
    Without(st.live, h);
    With(st.freeing, h);
  }

  lemma StepKeepsOwned(cfg: Config, st: State, step: Step)
    requires Owned(cfg, st) && Enabled(st, step) && !step.NoPayload?
    ensures Owned(cfg, Apply(st, step))
  {
    match step {
      case TakePayload(h, p) => TakePayloadKeepsOwned(cfg, st, h, p);
      case GivePayload(h) => GivePayloadKeepsOwned(cfg, st, h);
      case _ => HeaderStepKeepsOwned(cfg, st, step);
    }
  }

  lemma {:induction false} AlwaysOwned(cfg: Config, schedule: seq<Step>)
    requires cfg.numPayloads >= cfg.numHeaders
    ensures Owned(cfg, After(cfg, schedule))
  {
    if schedule != [] {
      var n := |schedule| - 1;
      var st := After(cfg, schedule[..n]);
      AlwaysOwned(cfg, schedule[..n]);
      if Enabled(st, schedule[n]) {
        if schedule[n].NoPayload? {
          NoFallback(cfg, st, schedule[n].h);
        } else {
          StepKeepsOwned(cfg, st, schedule[n]);
        }
      }
    }
  }

  // ------------------------------------------------------- when it is reachable

  /** Allocating the messages 0 .. k-1 one after the other. */
  function Allocations(k: nat): seq<Step> {
    if k == 0 then [] else Allocations(k - 1) + [TakeHeader(k - 1), TakePayload(k - 1, k - 1)]
  }

  lemma AfterOne(cfg: Config, schedule: seq<Step>, step: Step)
    ensures var st := After(cfg, schedule);
            After(cfg, schedule + [step]) == if Enabled(st, step) then Apply(st, step) else st
  {
    assert (schedule + [step])[..|schedule|] == schedule;
  }

  /** The first k headers and payloads are taken. */
  ghost predicate FirstTaken(cfg: Config, st: State, k: nat) {
    && (forall x :: x in st.headers <==> k <= x < cfg.numHeaders)
    && (forall x :: x in st.payloads <==> k <= x < cfg.numPayloads)
  }

  lemma TakenOneMore(cfg: Config, st: State, k: nat)
    requires k < cfg.numHeaders && k < cfg.numPayloads && FirstTaken(cfg, st, k)
    ensures Enabled(st, TakeHeader(k)) && Enabled(Apply(st, TakeHeader(k)), TakePayload(k, k))
    ensures FirstTaken(cfg, Apply(Apply(st, TakeHeader(k)), TakePayload(k, k)), k + 1)
  {
    assert k in st.headers && k in st.payloads;
  }

  lemma {:induction false} AfterAllocations(cfg: Config, k: nat)
    requires k <= cfg.numHeaders && k <= cfg.numPayloads
    ensures FirstTaken(cfg, After(cfg, Allocations(k)), k)
  {
    if k > 0 {
      AfterAllocations(cfg, k - 1);
      var s := Allocations(k - 1);
      TakenOneMore(cfg, After(cfg, s), k - 1);
      AfterOne(cfg, s, TakeHeader(k - 1));
      AfterOne(cfg, s + [TakeHeader(k - 1)], TakePayload(k - 1, k - 1));
      assert Allocations(k) == s + [TakeHeader(k - 1)] + [TakePayload(k - 1, k - 1)];
    }
  }

  /** A schedule leads to an allocation that has a header and finds no payload. */
  ghost predicate MeetsFallback(cfg: Config, schedule: seq<Step>, h: nat) {
    Enabled(After(cfg, schedule), NoPayload(h))
  }

  /** A schedule that runs into the fallback when there are more headers than payloads. */
  lemma FallbackHappens(cfg: Config) returns (schedule: seq<Step>, h: nat)
    requires cfg.numPayloads < cfg.numHeaders
    ensures MeetsFallback(cfg, schedule, h)
  {
    var k := cfg.numPayloads;
    AfterAllocations(cfg, k);
    assert k in After(cfg, Allocations(k)).headers;
    AfterOne(cfg, Allocations(k), TakeHeader(k));
    schedule, h := Allocations(k) + [TakeHeader(k)], k;
  }

  /** The fallback is unreachable, in every interleaving, exactly when there is a payload for every
      header. Both pools have 20 elements. */
  lemma FallbackUnreachableIff(cfg: Config)
    ensures (forall schedule: seq<Step>, h: nat :: !MeetsFallback(cfg, schedule, h))
            <==> cfg.numPayloads >= cfg.numHeaders
  {
    if cfg.numPayloads >= cfg.numHeaders {
      forall schedule: seq<Step>, h: nat
        ensures !MeetsFallback(cfg, schedule, h)
      {
        AlwaysOwned(cfg, schedule);
        NoFallback(cfg, After(cfg, schedule), h);
      }
    } else {
      var schedule, h := FallbackHappens(cfg);
    }
  }

  /** So with pools of equal size an allocation that got a header gets a payload, and the free
      payloads are the free headers and the operations that are between their two steps. */
  lemma EqualPoolsNeverMiss(n: nat, schedule: seq<Step>, h: nat)
    ensures var st := After(Config(n, n), schedule);
            && |st.payloads| == |st.headers| + |st.allocating| + |st.freeing|
            && (h in st.allocating ==> exists p :: Enabled(st, TakePayload(h, p)))
  {
    var cfg := Config(n, n);
    AlwaysOwned(cfg, schedule);
    var st := After(cfg, schedule);
    PayloadsAreCounted(cfg, st);
    NoFallback(cfg, st, h);
    if h in st.allocating {
      var p :| p in st.payloads;
      assert Enabled(st, TakePayload(h, p));
    }
  }

  /** What the fallback would do to a header that was used before: it gives back a payload that a
      live message owns. Two headers and one payload are enough. */
  lemma FallbackWouldShare() returns (schedule: seq<Step>)
    ensures var st := After(Config(2, 1), schedule);
            exists h :: h in st.live && h in st.data && st.data[h] in st.payloads
  {
    var cfg := Config(2, 1);
    var s0: seq<Step> := [];
    var s1 := s0 + [TakeHeader(0)];
    var s2 := s1 + [TakePayload(0, 0)];
    var s3 := s2 + [GivePayload(0)];
    var s4 := s3 + [GiveHeader(0)];
    var s5 := s4 + [TakeHeader(1)];
    var s6 := s5 + [TakePayload(1, 0)];
    var s7 := s6 + [TakeHeader(0)];
    schedule := s7 + [NoPayload(0)];
    AfterOne(cfg, s0, TakeHeader(0));
    AfterOne(cfg, s1, TakePayload(0, 0));
    AfterOne(cfg, s2, GivePayload(0));
    AfterOne(cfg, s3, GiveHeader(0));
    AfterOne(cfg, s4, TakeHeader(1));
    AfterOne(cfg, s5, TakePayload(1, 0));
    AfterOne(cfg, s6, TakeHeader(0));
    AfterOne(cfg, s7, NoPayload(0));
    assert After(cfg, s6).payloads == {} ;
    assert 1 in After(cfg, schedule).live;
  }

  // ------------------------------------------------------- the two functions

  const NUM_MESSAGE_TYPES: nat := 8

  class Allocator {
    const cfg: Config
    var st: State
    /** The msg_type fields of the headers. */
    var types: map<nat, nat>

    constructor (cfg: Config)
      requires cfg.numPayloads >= cfg.numHeaders
      ensures Valid() && this.cfg == cfg && st == Initial(cfg)
    {
      this.cfg, st, types := cfg, Initial(cfg), map[];
    }

    ghost predicate Valid()
      reads this
    {
      && cfg.numPayloads >= cfg.numHeaders && Owned(cfg, st)
      && (forall h :: h in st.live ==> h in types && types[h] < NUM_MESSAGE_TYPES)
    }

    /** meteo_alloc, undisturbed: it returns NULL exactly for an unknown type and an empty header
        pool; the branch that frees the header again is never taken. */
    method Alloc(t: nat) returns (m: Option<nat>)
      requires Valid()
      modifies this
      ensures Valid()
      ensures m.None? <==> t >= NUM_MESSAGE_TYPES || old(st).headers == {}
      ensures m.None? ==> st == old(st) && types == old(types)
      ensures m.Some? ==>
                && types == old(types)[m.value := t]
                && exists p ::
                     && Enabled(old(st), TakeHeader(m.value))
                     && Enabled(Apply(old(st), TakeHeader(m.value)), TakePayload(m.value, p))
                     && st == Apply(Apply(old(st), TakeHeader(m.value)), TakePayload(m.value, p))
    {
      if t >= NUM_MESSAGE_TYPES || st.headers == {} {
        return None;
      }
      var h :| h in st.headers;
      StepKeepsOwned(cfg, st, TakeHeader(h));
      st := Apply(st, TakeHeader(h));
      NoFallback(cfg, st, h);
      var p :| p in st.payloads;
      StepKeepsOwned(cfg, st, TakePayload(h, p));
      st := Apply(st, TakePayload(h, p));
      types := types[h := t];
      return Some(h);
    }

    /** meteo_free of a message that is in use. */
    method Free(h: nat)
      requires Valid() && h in st.live
      modifies this
      ensures Valid() && types == old(types)
      ensures Enabled(old(st), GivePayload(h))
      ensures st == Apply(Apply(old(st), GivePayload(h)), GiveHeader(h))
    {
      StepKeepsOwned(cfg, st, GivePayload(h));
      st := Apply(st, GivePayload(h));
      StepKeepsOwned(cfg, st, GiveHeader(h));
      st := Apply(st, GiveHeader(h));
    }
  }
}
