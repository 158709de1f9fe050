/**
 A module worker: the per-module unit that lists the tokens its module
 reports and reconciles them with its child token workers. Children are
 identified by token id; what a pass does to them (create, stop, update)
 is returned as a sequence of actions rather than performed.
 */
module ModuleWorker {
  import opened Results
  import opened TokenRegistry

  /** What a reconciliation pass does to one child token worker. */
  datatype Action =
    | Create(token: TokenType, info: TokenInfo)   // start and watch a worker named token.id
    | Stop(name: string)                          // unwatch and stop the worker
    | Update(name: string)                        // send the worker an Update message
  {
    /** The child the action is about. */
    function Name(): string
    {
      match this
      case Create(t, _) => t.id
      case Stop(n) => n
      case Update(n) => n
    }
  }

  /** The ids among the first `n` tokens of a listing. */
  function ListedUpTo(tokens: seq<TokenType>, n: nat): set<string>
    requires n <= |tokens|
  {
    set i | 0 <= i < n :: tokens[i].id
  }

  /** The ids of a listing. */
  function Listed(tokens: seq<TokenType>): set<string>
  {
    ListedUpTo(tokens, |tokens|)
  }

  function CreatedIds(acts: seq<Action>): set<string>
  {
    set a | a in acts && a.Create? :: a.token.id
  }

  function StoppedIds(acts: seq<Action>): set<string>
  {
    set a | a in acts && a.Stop? :: a.name
  }

  function UpdatedIds(acts: seq<Action>): set<string>
  {
    set a | a in acts && a.Update? :: a.name
  }

  /** No child is created, stopped or updated twice in `acts`. */
  ghost predicate NoRepeats(acts: seq<Action>)
  {
    forall i, j :: 0 <= i < j < |acts| ==>
      !(acts[i].Name() == acts[j].Name()
        && ((acts[i].Create? && acts[j].Create?) || (!acts[i].Create? && !acts[j].Create?)))
  }

  /** Every creation comes before every stop and update. */
  ghost predicate CreatesFirst(acts: seq<Action>)
  {
    forall i, j :: 0 <= i < j < |acts| && acts[j].Create? ==> acts[i].Create?
  }

  /** `tokens[k]` is the first token of the listing with its id. */
  predicate FirstOccurrence(tokens: seq<TokenType>, k: nat)
    requires k < |tokens|
  {
    forall j :: 0 <= j < k ==> tokens[j].id != tokens[k].id
  }

  /**
   A creation is for the first listed token with that id, and hands the
   new worker the registry's entry as it was, or a fresh one.
   */
  ghost predicate CreateIsFaithful(a: Action, reg: Registry, tokens: seq<TokenType>)
    requires a.Create?
  {
    && (exists k :: 0 <= k < |tokens| && tokens[k] == a.token && FirstOccurrence(tokens, k))
    && a.info == (if a.token.id in reg then reg[a.token.id] else NewTokenInfo(a.token))
  }

  /**
   The registry after creating workers for the ids among the first `n`
   listed tokens that had none: those ids are added or marked available;
   every other entry, including those of workers being stopped, is as it was.
   */
  ghost predicate RegistryReconciledUpTo(reg: Registry, children: set<string>, tokens: seq<TokenType>,
                                         n: nat, reg': Registry)
    requires n <= |tokens|
  {
    var missing := ListedUpTo(tokens, n) - children;
    && reg'.Keys == reg.Keys + missing
    && (forall id :: id in reg && id !in missing ==> reg'[id] == reg[id])
    && (forall id :: id in reg && id in missing ==> reg'[id] == reg[id].(available := true))
    && (forall k :: 0 <= k < n && tokens[k].id !in reg && tokens[k].id !in children && FirstOccurrence(tokens, k) ==>
          reg'[tokens[k].id] == NewTokenInfo(tokens[k]))
  }

  ghost predicate RegistryReconciled(reg: Registry, children: set<string>, tokens: seq<TokenType>, reg': Registry)
  {
    RegistryReconciledUpTo(reg, children, tokens, |tokens|, reg')
  }

  /** Whether some listed token has id `name`, scanning the listing front to back. */
  method HasToken(tokens: seq<TokenType>, name: string) returns (b: bool)
    ensures b <==> name in Listed(tokens)
  {
    for i := 0 to |tokens|
      invariant name !in ListedUpTo(tokens, i)
    {
      if tokens[i].id == name {
        return true;
      }
    }
    return false;
  }

  lemma ListedUpToNext(tokens: seq<TokenType>, n: nat)
    requires n < |tokens|
    ensures ListedUpTo(tokens, n + 1) == ListedUpTo(tokens, n) + {tokens[n].id}
  {
  }

  /** How the action summaries grow when actions are appended. */
  lemma SummariesOfAppend(a: seq<Action>, b: seq<Action>)
    ensures CreatedIds(a + b) == CreatedIds(a) + CreatedIds(b)
    ensures StoppedIds(a + b) == StoppedIds(a) + StoppedIds(b)
    ensures UpdatedIds(a + b) == UpdatedIds(a) + UpdatedIds(b)
  {
    assert forall x :: x in a + b <==> x in a || x in b;
  }

  /** The registry part of a step of CreateMissing that finds a child already there. */
  lemma RegistryStepKept(reg: Registry, children: set<string>, tokens: seq<TokenType>, i: nat,
                         r: Registry, kids: set<string>)
    requires i < |tokens| && tokens[i].id in kids
    requires kids == children + ListedUpTo(tokens, i)
    requires RegistryReconciledUpTo(reg, children, tokens, i, r)
    ensures RegistryReconciledUpTo(reg, children, tokens, i + 1, r)
  {
    var t := tokens[i];
    ListedUpToNext(tokens, i);
    assert ListedUpTo(tokens, i + 1) - children == ListedUpTo(tokens, i) - children;
    // a listed id that already has a child is either an old child or a repeat
    assert t.id in children || !FirstOccurrence(tokens, i) by {
      if t.id !in children {
        assert t.id in ListedUpTo(tokens, i);
        var j :| 0 <= j < i && tokens[j].id == t.id;
      }
    }
    forall k | 0 <= k < i + 1 && tokens[k].id !in reg && tokens[k].id !in children && FirstOccurrence(tokens, k)
      ensures r[tokens[k].id] == NewTokenInfo(tokens[k])
    {
      assert k < i;
    }
  }

  /** The registry part of a step of CreateMissing that creates a child. */
  lemma RegistryStepAdded(reg: Registry, children: set<string>, tokens: seq<TokenType>, i: nat,
                          r: Registry, kids: set<string>)
    requires i < |tokens| && tokens[i].id !in kids
    requires kids == children + ListedUpTo(tokens, i)
    requires RegistryReconciledUpTo(reg, children, tokens, i, r)
    ensures RegistryReconciledUpTo(reg, children, tokens, i + 1, GetTokenInfo(r, tokens[i]).1)
  {
    var t := tokens[i];
    var r' := GetTokenInfo(r, t).1;
    var missing := ListedUpTo(tokens, i) - children;
    ListedUpToNext(tokens, i);
    assert ListedUpTo(tokens, i + 1) - children == missing + {t.id};
    assert t.id !in missing;
    assert r'.Keys == reg.Keys + (missing + {t.id});
    assert forall id :: id in reg && id !in missing + {t.id} ==> r'[id] == reg[id];
    assert forall id :: id in reg && id in missing + {t.id} ==> r'[id] == reg[id].(available := true);
    forall k | 0 <= k < i + 1 && tokens[k].id !in reg && tokens[k].id !in children && FirstOccurrence(tokens, k)
      ensures r'[tokens[k].id] == NewTokenInfo(tokens[k])
    {
      if k < i {
        assert tokens[k].id in missing;
      }
    }
  }

  /** The action part of one creating step of CreateMissing. */
  lemma CreateStep(reg: Registry, children: set<string>, tokens: seq<TokenType>, i: nat,
                   r: Registry, kids: set<string>, creates: seq<Action>)
    requires i < |tokens| && tokens[i].id !in kids
    requires kids == children + ListedUpTo(tokens, i)
    requires RegistryReconciledUpTo(reg, children, tokens, i, r)
    requires CreatedIds(creates) == ListedUpTo(tokens, i) - children
    requires forall a :: a in creates ==> a.Create? && CreateIsFaithful(a, reg, tokens)
    requires NoRepeats(creates)
    ensures var creates' := creates + [Create(tokens[i], GetTokenInfo(r, tokens[i]).0)];
      && CreatedIds(creates') == ListedUpTo(tokens, i + 1) - children
      && (forall a :: a in creates' ==> a.Create? && CreateIsFaithful(a, reg, tokens))
      && NoRepeats(creates')
  {
    var t := tokens[i];
    var a := Create(t, GetTokenInfo(r, t).0);
    var creates' := creates + [a];
    ListedUpToNext(tokens, i);
    SummariesOfAppend(creates, [a]);
    assert FirstOccurrence(tokens, i);
    assert CreateIsFaithful(a, reg, tokens);
    forall x | x in creates' ensures x.Create? && CreateIsFaithful(x, reg, tokens) {
      if x != a {
        assert x in creates;
      }
    }
    forall j, k | 0 <= j < k < |creates'|
      ensures !(creates'[j].Name() == creates'[k].Name()
                && ((creates'[j].Create? && creates'[k].Create?) || (!creates'[j].Create? && !creates'[k].Create?)))
    {
      if k < |creates| {
        assert creates'[j] == creates[j] && creates'[k] == creates[k];
      } else {
        assert creates'[j] == creates[j] && creates[j] in creates;
        assert creates[j].Name() in CreatedIds(creates);
      }
    }
  }

  /**
   The first half of a pass (createToken for each new id): every listed id
   with no child gets exactly one, built from the registry entry for the
   first listed token with that id.
   */
  method CreateMissing(children: set<string>, reg: Registry, tokens: seq<TokenType>)
    returns (kids: set<string>, reg': Registry, creates: seq<Action>)
    ensures kids == children + Listed(tokens)
    ensures RegistryReconciled(reg, children, tokens, reg')
    ensures CreatedIds(creates) == Listed(tokens) - children
    ensures forall a :: a in creates ==> a.Create? && CreateIsFaithful(a, reg, tokens)
    ensures NoRepeats(creates)
  {
    kids := children;
    reg' := reg;
    creates := [];
    for i := 0 to |tokens|
      invariant kids == children + ListedUpTo(tokens, i)
      invariant RegistryReconciledUpTo(reg, children, tokens, i, reg')
      invariant CreatedIds(creates) == ListedUpTo(tokens, i) - children
      invariant forall a :: a in creates ==> a.Create? && CreateIsFaithful(a, reg, tokens)
      invariant NoRepeats(creates)
    {
      var t := tokens[i];
      ListedUpToNext(tokens, i);
      if t.id !in kids {  // !hasToken(tokenType)
        RegistryStepAdded(reg, children, tokens, i, reg', kids);
        CreateStep(reg, children, tokens, i, reg', kids, creates);
        var (info, r) := GetTokenInfo(reg', t);
        creates := creates + [Create(t, info)];
        kids := kids + {t.id};
        reg' := r;
      } else {
        RegistryStepKept(reg, children, tokens, i, reg', kids);
      }
    }
  }

  /**
   The second half of a pass, over the children present after the first:
   each is visited once, stopped (destroyToken) if no listed token has its
   id and sent an Update otherwise. The registry is not involved.
   */
  method Sweep(kids: set<string>, tokens: seq<TokenType>) returns (kids': set<string>, sweep: seq<Action>)
    ensures kids' == kids * Listed(tokens)
    ensures StoppedIds(sweep) == kids - Listed(tokens)
    ensures UpdatedIds(sweep) == kids * Listed(tokens)
    ensures forall a :: a in sweep ==> !a.Create? && a.Name() in kids
    ensures NoRepeats(sweep)
  {
    kids' := kids;
    sweep := [];
    var rest := kids;
    while rest != {}
      invariant rest <= kids
      invariant kids' == kids - ((kids - rest) - Listed(tokens))
      invariant StoppedIds(sweep) == (kids - rest) - Listed(tokens)
      invariant UpdatedIds(sweep) == (kids - rest) * Listed(tokens)
      invariant forall a :: a in sweep ==> !a.Create? && a.Name() in kids - rest
      invariant NoRepeats(sweep)
      decreases rest
    {
      var name :| name in rest;
      var listed := HasToken(tokens, name);
      if !listed {
        SummariesOfAppend(sweep, [Stop(name)]);
        kids' := kids' - {name};
        sweep := sweep + [Stop(name)];
      } else {
        SummariesOfAppend(sweep, [Update(name)]);
        sweep := sweep + [Update(name)];
      }
      rest := rest - {name};
    }
  }

  /**
   Everything a pass promises, relating the state before and after: the
   children become exactly the listed ids; each listed id without a child
   is created once, from the first token listed with it and the registry's
   prior entry; each vanished child is stopped once and every listed child
   updated once; creations come first; only new children's registry entries
   change.
   */
  ghost predicate PassSpec(children: set<string>, reg: Registry, tokens: seq<TokenType>,
                           children': set<string>, reg': Registry, actions: seq<Action>)
  {
    && children' == Listed(tokens)
    && RegistryReconciled(reg, children, tokens, reg')
    && CreatedIds(actions) == Listed(tokens) - children
    && StoppedIds(actions) == children - Listed(tokens)
    && UpdatedIds(actions) == Listed(tokens)
    && NoRepeats(actions)
    && CreatesFirst(actions)
    && (forall a :: a in actions && a.Create? ==> CreateIsFaithful(a, reg, tokens))
  }

  /**
   One reconciliation pass over the listing `tokens`, starting from the
   children `children` and the registry `reg`: afterwards the children are
   exactly the listed ids; new ids were created once each, unlisted children
   stopped once each, and every listed child (new ones included) updated
   once; only entries of newly created children changed in the registry.
   */
  method UpdateTokens(children: set<string>, reg: Registry, tokens: seq<TokenType>)
    returns (children': set<string>, reg': Registry, actions: seq<Action>)
    ensures PassSpec(children, reg, tokens, children', reg', actions)
  {
    var kids, creates, sweep;
    kids, reg', creates := CreateMissing(children, reg, tokens);
    children', sweep := Sweep(kids, tokens);
    actions := creates + sweep;
    SummariesOfAppend(creates, sweep);
    assert StoppedIds(creates) == {} && UpdatedIds(creates) == {};
    assert CreatedIds(sweep) == {};
    assert forall k :: 0 <= k < |creates| ==> actions[k] == creates[k] && actions[k] in creates;
    assert forall k :: |creates| <= k < |actions| ==> actions[k] == sweep[k - |creates|] && actions[k] in sweep;
  }

  // ---------------------------------------------------------------------
  // The periodic tick and the worker's lifecycle

  /** A failure reported by the module backend (an exception from the module's own code). */
  datatype ModuleError = ModuleError(message: string)

  datatype Liveness = Running | Stopped

  /** The worker's own state: whether it runs, and the ids of its child token workers. */
  datatype Worker = Worker(liveness: Liveness, children: set<string>)

  /**
   One tick: `listing` is what listTokens produced. When it failed, the
   error goes to the caller and nothing else happens; otherwise the pass
   runs on the listed tokens.
   */
  method OnUpdate(w: Worker, reg: Registry, listing: Result<seq<TokenType>, ModuleError>)
    returns (w': Worker, reg': Registry, actions: seq<Action>, r: Outcome<ModuleError>)
    ensures listing.Failure? ==> w' == w && reg' == reg && actions == [] && r == Fail(listing.error)
    ensures listing.Success? ==>
      && r == Pass
      && w'.liveness == w.liveness
      && PassSpec(w.children, reg, listing.value, w'.children, reg', actions)
  {
    match listing
    case Failure(e) =>
      w', reg', actions, r := w, reg, [], Fail(e);
    case Success(tokens) =>
      var children';
      children', reg', actions := UpdateTokens(w.children, reg, tokens);
      w' := w.(children := children');
      r := Pass;
  }

  /** The worker as it starts: it stops itself when the module cannot be initialised. */
  function PreStart(initialized: Outcome<ModuleError>): (w: Worker)
    ensures w.children == {}
    ensures w.liveness == Stopped <==> initialized.Fail?
  {
    match initialized
    case Pass => Worker(Running, {})
    case Fail(_) => Worker(Stopped, {})   // logged, then getContext().stop(getSelf())
  }

  /** What postStop passes on from deinitialising the module: nothing, a failure is only logged. */
  function PostStop(deinitialized: Outcome<ModuleError>): (propagated: Option<ModuleError>)
    ensures propagated == None
  {
    match deinitialized
    case Pass => None
    case Fail(_) => None
  }

  /** Supervision directives a parent may give for a failing child. */
  datatype Directive = Resume | Restart | StopChild | Escalate

  /** The directive for any failure of a child token worker: always resume it. */
  function SupervisorDirective(failure: ModuleError): (d: Directive)
    ensures d == Resume
  {
    Resume
  }
}
