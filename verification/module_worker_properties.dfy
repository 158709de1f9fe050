/**
 Properties of successive reconciliation passes of a module worker, for
 any states the passes of OnUpdate can produce.
 */
module ModuleWorkerProperties {
  import opened TokenRegistry
  import opened ModuleWorker

  /** A pass never removes a registry entry, not even for the workers it stops. */
  lemma RegistryNeverShrinks(c0: set<string>, reg0: Registry, tokens: seq<TokenType>,
                             c1: set<string>, reg1: Registry, acts: seq<Action>)
    requires PassSpec(c0, reg0, tokens, c1, reg1, acts)
    ensures reg0.Keys <= reg1.Keys
    ensures forall id :: id in StoppedIds(acts) && id in reg0 ==> reg1[id] == reg0[id]
  {
  }

  /**
   Every child has a registry entry before a pass (as after PreStart, with
   no children) and therefore after it.
   */
  lemma PassKeepsChildrenRegistered(c0: set<string>, reg0: Registry, tokens: seq<TokenType>,
                                    c1: set<string>, reg1: Registry, acts: seq<Action>)
    requires PassSpec(c0, reg0, tokens, c1, reg1, acts)
    requires c0 <= reg0.Keys
    ensures c1 <= reg1.Keys
  {
  }

  /**
   A second pass over the same listing creates and stops nothing, leaves the
   registry as it is, and only updates the children.
   */
  lemma SecondPassIsQuiet(c0: set<string>, reg0: Registry, tokens: seq<TokenType>,
                          c1: set<string>, reg1: Registry, acts1: seq<Action>,
                          c2: set<string>, reg2: Registry, acts2: seq<Action>)
    requires PassSpec(c0, reg0, tokens, c1, reg1, acts1)
    requires PassSpec(c1, reg1, tokens, c2, reg2, acts2)
    ensures c2 == c1
    ensures reg2 == reg1
    ensures CreatedIds(acts2) == {} && StoppedIds(acts2) == {}
    ensures UpdatedIds(acts2) == c1
  {
    assert Listed(tokens) - c1 == {};
    assert reg2.Keys == reg1.Keys;
  }

  /** What one pass does to the children and the registry entry of one id. */
  lemma OnePassAbout(c: set<string>, reg: Registry, tokens: seq<TokenType>,
                     c': set<string>, reg': Registry, acts: seq<Action>, id: string)
    requires PassSpec(c, reg, tokens, c', reg', acts)
    ensures id in c' <==> id in Listed(tokens)
    ensures id in Listed(tokens) && (id in c ==> id in reg) ==> id in reg'
    ensures id in reg && (id in c || id !in Listed(tokens)) ==> id in reg' && reg'[id] == reg[id]
    ensures id in c && id !in Listed(tokens) ==> id in StoppedIds(acts)
    ensures id in reg && id !in c && id in Listed(tokens) ==>
      && id in CreatedIds(acts)
      && reg'[id] == reg[id].(available := true)
      && forall a :: a in acts && a.Create? && a.token.id == id ==> a.info == reg[id]
  {
    forall a | a in acts && a.Create? && a.token.id == id
      ensures id in reg ==> a.info == reg[id]
    {
      assert CreateIsFaithful(a, reg, tokens);
    }
  }

  /**
   A token that is listed, then missing, then listed again gets a new worker
   that starts from the entry the registry kept for it, now marked available.
   */
  lemma ReinsertedTokenKeepsItsEntry(c0: set<string>, reg0: Registry, l1: seq<TokenType>,
                                     c1: set<string>, reg1: Registry, a1: seq<Action>,
                                     l2: seq<TokenType>, c2: set<string>, reg2: Registry, a2: seq<Action>,
                                     l3: seq<TokenType>, c3: set<string>, reg3: Registry, a3: seq<Action>,
                                     id: string)
    requires PassSpec(c0, reg0, l1, c1, reg1, a1)
    requires PassSpec(c1, reg1, l2, c2, reg2, a2)
    requires PassSpec(c2, reg2, l3, c3, reg3, a3)
    requires c0 <= reg0.Keys
    requires id in Listed(l1) && id !in Listed(l2) && id in Listed(l3)
    ensures id in StoppedIds(a2) && id in CreatedIds(a3)
    ensures id in reg1 && reg3[id] == reg1[id].(available := true)
    ensures forall a :: a in a3 && a.Create? && a.token.id == id ==> a.info == reg1[id]
  {
    OnePassAbout(c0, reg0, l1, c1, reg1, a1, id);
    OnePassAbout(c1, reg1, l2, c2, reg2, a2, id);
    OnePassAbout(c2, reg2, l3, c3, reg3, a3, id);
  }

  /**
   Three ticks listing [T1], then [T1, T2], then [T2], from no children:
   the children follow the listings, and the only stop is for T1, at the
   third tick.
   */
  lemma ThreeTicks(t1: TokenType, t2: TokenType, reg0: Registry,
                   c1: set<string>, reg1: Registry, a1: seq<Action>,
                   c2: set<string>, reg2: Registry, a2: seq<Action>,
                   c3: set<string>, reg3: Registry, a3: seq<Action>)
    requires t1.id != t2.id
    requires PassSpec({}, reg0, [t1], c1, reg1, a1)
    requires PassSpec(c1, reg1, [t1, t2], c2, reg2, a2)
    requires PassSpec(c2, reg2, [t2], c3, reg3, a3)
    ensures c1 == {t1.id} && c2 == {t1.id, t2.id} && c3 == {t2.id}
    ensures StoppedIds(a1) == {} && StoppedIds(a2) == {} && StoppedIds(a3) == {t1.id}
    ensures CreatedIds(a1) == {t1.id} && CreatedIds(a2) == {t2.id} && CreatedIds(a3) == {}
  {
    assert Listed([t1]) == {t1.id} by { assert [t1][0] == t1; }
    assert Listed([t2]) == {t2.id} by { assert [t2][0] == t2; }
    assert Listed([t1, t2]) == {t1.id, t2.id} by {
      assert [t1, t2][0] == t1 && [t1, t2][1] == t2;
    }
  }
}
