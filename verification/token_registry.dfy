/**
 The token registry as the module worker uses it: a map from token id to
 the token's information, looked up, created and marked available when a
 module reports a token that has no worker yet.
 */
module TokenRegistry {

  /** A token as a module's listing reports it. */
  datatype TokenType = TokenType(id: string, moduleType: string)

  /** What the registry keeps about a token (a snapshot of it is handed to the token's worker). */
  datatype TokenInfo = TokenInfo(moduleType: string, available: bool)

  /** The process-wide registry, keyed by token id. */
  type Registry = map<string, TokenInfo>

  /**
   The record the registry creates for a token it has never seen; the
   token's own worker later reports availability.
   */
  function NewTokenInfo(t: TokenType): TokenInfo
  {
    TokenInfo(t.moduleType, false)
  }

  /**
   The information a new worker for `t` starts from, and the registry
   after: a known token's entry is handed over as it was and then marked
   available; an unknown token gets a fresh entry.
   */
  function GetTokenInfo(reg: Registry, t: TokenType): (r: (TokenInfo, Registry))
    ensures r.1.Keys == reg.Keys + {t.id}
    ensures forall id :: id in reg && id != t.id ==> r.1[id] == reg[id]
    ensures t.id in reg ==> r.0 == reg[t.id] && r.1[t.id] == reg[t.id].(available := true)
    ensures t.id !in reg ==> r.0 == r.1[t.id] == NewTokenInfo(t)
  {
    if t.id in reg then
      var info := reg[t.id];
      (info, reg[t.id := info.(available := true)])
    else
      var info := NewTokenInfo(t);
      (info, reg[t.id := info])
  }
}
