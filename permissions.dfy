/**
 * `FilePermissions` of the Forge ports: a permissions.yml table mapping each
 * user name to a set of permission names, with the "defaultuser" entry as the
 * fallback for everyone. The 1.10.2, 1.8.9 and 1.15.2 classes share the table
 * and its lookups; 1.8.9 filters offline permissions in an explicit loop and
 * 1.15.2 takes a nullable player instead of a command sender.
 *
 * The server's op list is the `ops` parameter: `isOp(name)` is `name in ops`.
 */
module FilePermissions {
  import opened JavaLang

  /** A configuration entry: its key and, when the value is a list, its strings. */
  type ConfigEntry = (string, Option<seq<string>>)

  /** Who sent a command: a player (by name) or anything else, such as the console. */
  datatype CommandSender = PlayerSender(name: string) | OtherSender

  const DEFAULT_USER: string := "defaultuser"

  function LowerSet(strings: seq<string>): (r: set<string>)
    ensures forall p :: p in r <==> exists i :: 0 <= i < |strings| && ToLower(strings[i]) == p
  {
    set i | 0 <= i < |strings| :: ToLower(strings[i])
  }

  /** The table the constructor's loop builds: list-valued keys, lower-cased, later ones overwriting. */
  function PermTable(cfg: seq<ConfigEntry>): map<string, set<string>>
  {
    if |cfg| == 0 then map[]
    else
      var t := PermTable(cfg[..|cfg| - 1]);
      var e := cfg[|cfg| - 1];
      if e.1.None? then t else t[ToLower(e.0) := LowerSet(e.1.value)]
  }

  /** Every key and every permission of a table is in lower case. */
  predicate AllLower(t: map<string, set<string>>) {
    forall k :: k in t ==> k == ToLower(k) && forall p :: p in t[k] ==> p == ToLower(p)
  }

  lemma LowerSetIsLower(strings: seq<string>)
    ensures forall p :: p in LowerSet(strings) ==> p == ToLower(p)
  {
    forall p | p in LowerSet(strings)
      ensures p == ToLower(p)
    {
      var i :| 0 <= i < |strings| && ToLower(strings[i]) == p;
      ToLowerIdempotent(strings[i]);
    }
  }

  /** The constructor lower-cases every key and every permission. */
  lemma {:induction false} PermTableLower(cfg: seq<ConfigEntry>)
    ensures AllLower(PermTable(cfg))
  {
    if |cfg| > 0 {
      PermTableLower(cfg[..|cfg| - 1]);
      var e := cfg[|cfg| - 1];
      if e.1.Some? {
        ToLowerIdempotent(e.0);
        LowerSetIsLower(e.1.value);
      }
    }
  }

  /**
   * A user's entry is the lower-cased list of the last list-valued key that
   * lower-cases to that user's name; a name no such key lower-cases to is absent.
   */
  lemma {:induction false} PermTableEntry(cfg: seq<ConfigEntry>, i: int)
    requires 0 <= i < |cfg| && cfg[i].1.Some?
    requires forall j :: i < j < |cfg| && cfg[j].1.Some? ==> ToLower(cfg[j].0) != ToLower(cfg[i].0)
    ensures ToLower(cfg[i].0) in PermTable(cfg)
    ensures PermTable(cfg)[ToLower(cfg[i].0)] == LowerSet(cfg[i].1.value)
    decreases |cfg|
  {
    if i < |cfg| - 1 {
      var init := cfg[..|cfg| - 1];
      assert init[i] == cfg[i];
      PermTableEntry(init, i);
    }
  }

  lemma {:induction false} PermTableAbsent(cfg: seq<ConfigEntry>, k: string)
    requires forall j :: 0 <= j < |cfg| && cfg[j].1.Some? ==> ToLower(cfg[j].0) != k
    ensures k !in PermTable(cfg)
    decreases |cfg|
  {
    if |cfg| > 0 {
      PermTableAbsent(cfg[..|cfg| - 1], k);
    }
  }

  class FilePermissions {
    const perms: map<string, set<string>>
    /** The "defaultuser" set; null when the file has no such entry. */
    const defperms: Option<set<string>>

    /** Lower-case table, and the default set is the table's "defaultuser" entry. */
    ghost predicate Valid() {
      AllLower(perms) &&
      (defperms.Some? <==> DEFAULT_USER in perms) &&
      (defperms.Some? ==> defperms.value == perms[DEFAULT_USER])
    }

    /** `FilePermissions(cfg)`: one pass over the configuration's keys. */
    constructor (cfg: seq<ConfigEntry>)
      ensures perms == PermTable(cfg)
      ensures Valid()
    {
      var table: map<string, set<string>> := map[];
      var def: Option<set<string>> := None;
      var i := 0;
      while i < |cfg|
        invariant 0 <= i <= |cfg|
        invariant table == PermTable(cfg[..i])
        invariant def.Some? <==> DEFAULT_USER in table
        invariant def.Some? ==> def.value == table[DEFAULT_USER]
      {
        assert cfg[..i + 1][..i] == cfg[..i];
        var strings := cfg[i].1;
        if strings.Some? {
          var lowerKey := ToLower(cfg[i].0);
          var noUppercase := LowerSet(strings.value);
          table := table[lowerKey := noUppercase];
          if lowerKey == DEFAULT_USER {
            def := Some(noUppercase);
          }
        }
        i := i + 1;
      }
      assert cfg[..|cfg|] == cfg;
      PermTableLower(cfg);
      perms := table;
      defperms := def;
    }

    /**
     * `hasPerm(player, perm)`: in the player's set, or else in the default
     * set, which is dereferenced even when the file has none.
     */
    function HasPerm(player: string, perm: string): (r: Result<bool>)
      ensures r == Ok(true) <==> (player in perms && perm in perms[player]) || (defperms.Some? && perm in defperms.value)
      ensures r.Err? <==> defperms.None? && !(player in perms && perm in perms[player])
      ensures r.Err? ==> r.error == NullPointerException
    {
      if player in perms && perm in perms[player] then Ok(true)
      else if defperms.None? then Err(NullPointerException)
      else Ok(perm in defperms.value)
    }

    /** The permission name is not lower-cased, so one with an upper-case letter is never granted. */
    lemma MixedCaseNeverGranted(player: string, perm: string)
      requires Valid()
      requires perm != ToLower(perm)
      ensures HasPerm(player, perm) != Ok(true)
    {
    }

    /**
     * `hasOfflinePermissions(player, perms)` as the 1.10.2 and 1.15.2 stream
     * filter: everything for an op, otherwise the requested permissions
     * `hasPerm` grants; a null default set surfaces when a lookup reaches it.
     */
    function HasOfflinePermissions(player: string, requested: set<string>, ops: set<string>): (r: Result<set<string>>)
      ensures r.Ok? ==> r.value <= requested
      ensures ToLower(player) in ops ==> r == Ok(requested)
      ensures r.Err? <==> ToLower(player) !in ops && exists p :: p in requested && HasPerm(ToLower(player), p).Err?
      ensures r.Ok? && ToLower(player) !in ops ==>
                forall p :: p in requested ==> (p in r.value <==> HasPerm(ToLower(player), p) == Ok(true))
    {
      var lp := ToLower(player);
      if lp in ops then Ok(requested)
      else if exists p :: p in requested && HasPerm(lp, p).Err? then Err(NullPointerException)
      else Ok(set p | p in requested && HasPerm(lp, p) == Ok(true))
    }

    /** The 1.8.9 `hasOfflinePermissions`: the same filter as a loop adding to a fresh set. */
    method HasOfflinePermissionsLoop(player: string, requested: set<string>, ops: set<string>) returns (r: Result<set<string>>)
      ensures r == HasOfflinePermissions(player, requested, ops)
    {
      var lp := ToLower(player);
      if lp in ops {
        return Ok(requested);
      }
      var rslt: set<string> := {};
      var remaining := requested;
      while remaining != {}
        invariant remaining <= requested
        invariant forall p :: p in requested - remaining ==> HasPerm(lp, p).Ok?
        invariant rslt == set p | p in requested - remaining && HasPerm(lp, p) == Ok(true)
        decreases remaining
      {
        var p :| p in remaining;
        var granted := HasPerm(lp, p);
        if granted.Err? {
          assert p in requested && HasPerm(lp, p).Err?;
          return Err(granted.error);
        }
        if granted.value {
          rslt := rslt + {p};
        }
        remaining := remaining - {p};
      }
      assert requested - remaining == requested;
      r := Ok(rslt);
    }

    /** `hasOfflinePermission(player, perm)`: an op has everything, others go through `hasPerm`. */
    function HasOfflinePermission(player: string, perm: string, ops: set<string>): (r: Result<bool>)
      ensures ToLower(player) in ops ==> r == Ok(true)
      ensures ToLower(player) !in ops ==> r == HasPerm(ToLower(player), perm)
    {
      var lp := ToLower(player);
      if lp in ops then Ok(true) else HasPerm(lp, perm)
    }

    /** Offline checks agree: one permission is granted iff the set query keeps it. */
    lemma OfflineChecksAgree(player: string, perm: string, ops: set<string>)
      requires HasOfflinePermissions(player, {perm}, ops).Ok?
      ensures HasOfflinePermission(player, perm, ops) == Ok(perm in HasOfflinePermissions(player, {perm}, ops).value)
    {
      if ToLower(player) !in ops {
        assert perm in {perm};
        assert HasPerm(ToLower(player), perm).Ok?;
      }
    }

    /** `has(sender, permission)` (1.10.2, 1.8.9): senders other than players may do anything; no op override. */
    function Has(sender: CommandSender, permission: string): (r: Result<bool>)
      ensures sender.OtherSender? ==> r == Ok(true)
      ensures sender.PlayerSender? ==> r == HasPerm(ToLower(sender.name), permission)
    {
      match sender
      case OtherSender => Ok(true)
      case PlayerSender(name) => HasPerm(ToLower(name), permission)
    }

    /** `hasPermissionNode(sender, permission)` (1.10.2, 1.8.9): only an op player holds a node. */
    function HasPermissionNode(sender: CommandSender, permission: string, ops: set<string>): (r: bool)
      ensures r <==> sender.PlayerSender? && ToLower(sender.name) in ops
    {
      match sender
      case OtherSender => false
      case PlayerSender(name) => ToLower(name) in ops
    }

    /** `has(psender, permission)` (1.15.2): a null player may do anything. */
    function HasNullable(psender: Option<string>, permission: string): (r: Result<bool>)
      ensures psender.None? ==> r == Ok(true)
      ensures psender.Some? ==> r == Has(PlayerSender(psender.value), permission)
    {
      if psender.None? then Ok(true) else HasPerm(ToLower(psender.value), permission)
    }

    /** `hasPermissionNode(psender, permission)` (1.15.2): a null player holds no node. */
    function HasPermissionNodeNullable(psender: Option<string>, permission: string, ops: set<string>): (r: bool)
      ensures psender.None? ==> !r
      ensures psender.Some? ==> r == HasPermissionNode(PlayerSender(psender.value), permission, ops)
    {
      psender.Some? && ToLower(psender.value) in ops
    }
  }
}
