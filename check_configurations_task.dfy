/**
 * One pass of the background check for keygroup config updates
 * (tasks/background/CheckKeygroupConfigurationsOnUpdatesTask.java): collect the
 * keygroups this machine is responsible for, read their configs, trigger a
 * subscription update for each config not seen with the same version in the
 * previous pass, and remember this pass's configs.
 */
module ConfigurationsCheck {
  import opened Types
  import opened DbConnector

  /** The naming service's answer to a keygroup config read: a config or null, or a failure. */
  datatype ConfigAnswer = Answered(config: Option<KeygroupConfig>) | Failed

  /** The outcome of reading one keygroup's config. */
  datatype ConfigRead = Found(config: KeygroupConfig) | ReadFailed | Null

  /**
   * The keygroup config lookup (storageconnector/ConfigAccessHelper.java): the local
   * store first, the naming service when the store holds nothing.
   */
  function ReadConfig(local: map<KeygroupId, KeygroupConfig>, remote: KeygroupId -> ConfigAnswer, k: KeygroupId): ConfigRead {
    if k in local then Found(local[k])
    else match remote(k)
      case Answered(Some(c)) => Found(c)
      case Answered(None) => Null
      case Failed => ReadFailed
  }

  datatype PassOutcome =
    | Completed
    /** listing the responsibility table failed: the rest of the pass is skipped */
    | ListingFailed
    /** a keygroup's config read as null: its version is dereferenced and the task dies */
    | Aborted

  /** The keygroups whose responsibility entry names this machine. */
  function Responsible(listing: Subscribers, machine: string): set<KeygroupId> {
    set k | k in listing && listing[k].0 == machine
  }

  /** The configs read for the keygroups, in order, each mapped to its version. */
  function Collected(ks: seq<KeygroupId>, local: map<KeygroupId, KeygroupConfig>, remote: KeygroupId -> ConfigAnswer): map<KeygroupConfig, int>
    decreases |ks|
  {
    if ks == [] then map[]
    else
      var n := |ks| - 1;
      var m := Collected(ks[..n], local, remote);
      match ReadConfig(local, remote, ks[n])
      case Found(c) => m[c := c.version]
      case _ => m
  }

  /**
   * The collected map holds exactly the configs found for the keygroups, each
   * under its own version; keygroups whose read failed contribute nothing.
   */
  lemma {:induction false} CollectedExact(ks: seq<KeygroupId>, local: map<KeygroupId, KeygroupConfig>,
                                          remote: KeygroupId -> ConfigAnswer, c: KeygroupConfig)
    ensures c in Collected(ks, local, remote) <==> exists i | 0 <= i < |ks| :: ReadConfig(local, remote, ks[i]) == Found(c)
    ensures c in Collected(ks, local, remote) ==> Collected(ks, local, remote)[c] == c.version
    decreases |ks|
  {
    if ks != [] {
      var n := |ks| - 1;
      var init := ks[..n];
      CollectedExact(init, local, remote, c);
      if exists i | 0 <= i < |ks| :: ReadConfig(local, remote, ks[i]) == Found(c) {
        var i :| 0 <= i < |ks| && ReadConfig(local, remote, ks[i]) == Found(c);
        if i < n {
          assert init[i] == ks[i];
        }
      }
      if exists i | 0 <= i < |init| :: ReadConfig(local, remote, init[i]) == Found(c) {
        var i :| 0 <= i < |init| && ReadConfig(local, remote, init[i]) == Found(c);
        assert ks[i] == init[i];
      }
    }
  }

  /** checkIfKeygroupConfigVersionDiffers: the saved map has no entry for the config, or a different version. */
  predicate Differs(saved: map<KeygroupConfig, int>, config: KeygroupConfig, version: int) {
    config !in saved || saved[config] != version
  }

  /** Every saved entry holds its config's own version, as every collected map does. */
  ghost predicate OwnVersions(saved: map<KeygroupConfig, int>) {
    forall c | c in saved :: saved[c] == c.version
  }

  /**
   * Against a map of own versions, a config's version differs exactly when that
   * config value was not saved: any change to a config, not only to its version,
   * triggers an update.
   */
  lemma DiffersIffUnseen(saved: map<KeygroupConfig, int>, c: KeygroupConfig)
    requires OwnVersions(saved)
    ensures Differs(saved, c, c.version) <==> c !in saved
  {
  }

  /**
   * A config that the previous pass read (over `ks`, `local`, `remote`) triggers
   * nothing when the next pass (over `ks2`, `local2`, `remote2`) reads it again:
   * the saved map holds it under the version the next pass collects.
   */
  lemma UnchangedTriggersNothing(ks: seq<KeygroupId>, local: map<KeygroupId, KeygroupConfig>, remote: KeygroupId -> ConfigAnswer,
                                 ks2: seq<KeygroupId>, local2: map<KeygroupId, KeygroupConfig>, remote2: KeygroupId -> ConfigAnswer,
                                 c: KeygroupConfig)
    requires exists i | 0 <= i < |ks| :: ReadConfig(local, remote, ks[i]) == Found(c)
    requires c in Collected(ks2, local2, remote2)
    ensures !Differs(Collected(ks, local, remote), c, Collected(ks2, local2, remote2)[c])
  {
    CollectedExact(ks, local, remote, c);
    CollectedExact(ks2, local2, remote2, c);
  }

  /**
   * A config no keygroup was read as in the pass that built the saved map: a
   * changed config, even one that differs from the saved one only in its algorithm
   * and keeps its version, triggers in the next pass.
   */
  lemma ChangeTriggers(ks: seq<KeygroupId>, local: map<KeygroupId, KeygroupConfig>,
                       remote: KeygroupId -> ConfigAnswer, c: KeygroupConfig)
    requires forall i | 0 <= i < |ks| :: ReadConfig(local, remote, ks[i]) != Found(c)
    ensures Differs(Collected(ks, local, remote), c, c.version)
  {
    CollectedExact(ks, local, remote, c);
  }

  /** The keygroup configuration check task with its three collections and the updates it triggered. */
  class KeygroupConfigurationsCheck {
    var currentResponsibleKeygroups: seq<KeygroupId>
    var currentKeygroupConfigurations: map<KeygroupConfig, int>
    var savedKeygroupConfigurations: map<KeygroupConfig, int>
    /** The configs a subscription update task was started for, in order. */
    var triggered: seq<KeygroupConfig>

    constructor ()
      ensures currentResponsibleKeygroups == [] && currentKeygroupConfigurations == map[]
      ensures savedKeygroupConfigurations == map[] && triggered == []
    {
      currentResponsibleKeygroups, currentKeygroupConfigurations := [], map[];
      savedKeygroupConfigurations, triggered := map[], [];
    }

    method CheckIfKeygroupConfigVersionDiffers(config: KeygroupConfig, version: int) returns (differs: bool)
      ensures differs <==> config !in savedKeygroupConfigurations || savedKeygroupConfigurations[config] != version
    {
      if config !in savedKeygroupConfigurations || savedKeygroupConfigurations[config] != version {
        return true;
      }
      return false;
    }

    /** Lines 66-70: the responsible keygroups, in the listing's (unspecified) order, each once. */
    method CollectResponsible(listing: Subscribers, machine: string)
      requires currentResponsibleKeygroups == []
      modifies this`currentResponsibleKeygroups
      ensures forall k :: k in currentResponsibleKeygroups <==> k in Responsible(listing, machine)
      ensures forall i, j | 0 <= i < j < |currentResponsibleKeygroups| :: currentResponsibleKeygroups[i] != currentResponsibleKeygroups[j]
    {
      var rest := listing.Keys;
      while rest != {}
        invariant rest <= listing.Keys
        invariant forall k :: k in currentResponsibleKeygroups <==> k in Responsible(listing, machine) && k !in rest
        invariant forall i, j | 0 <= i < j < |currentResponsibleKeygroups| :: currentResponsibleKeygroups[i] != currentResponsibleKeygroups[j]
        decreases rest
      {
        var k :| k in rest;
        if machine == listing[k].0 {
          currentResponsibleKeygroups := currentResponsibleKeygroups + [k];
        }
        rest := rest - {k};
      }
    }

    /**
     * Lines 76-83: reads each responsible keygroup's config into the current map.
     * A failed read is logged and skipped; a null config ends the task.
     */
    method ReadConfigurations(local: map<KeygroupId, KeygroupConfig>, remote: KeygroupId -> ConfigAnswer) returns (ok: bool)
      requires currentKeygroupConfigurations == map[]
      modifies this`currentKeygroupConfigurations
      ensures ok <==> forall i | 0 <= i < |currentResponsibleKeygroups| :: !ReadConfig(local, remote, currentResponsibleKeygroups[i]).Null?
      ensures ok ==> currentKeygroupConfigurations == Collected(currentResponsibleKeygroups, local, remote)
    {
      var ks := currentResponsibleKeygroups;
      var i := 0;
      while i < |ks|
        invariant 0 <= i <= |ks|
        invariant forall j | 0 <= j < i :: !ReadConfig(local, remote, ks[j]).Null?
        invariant currentKeygroupConfigurations == Collected(ks[..i], local, remote)
      {
        assert ks[..i + 1][..i] == ks[..i];
        var config: ConfigRead;
        if ks[i] in local {
          config := Found(local[ks[i]]);
        } else {
          match remote(ks[i])
          case Answered(Some(c)) => config := Found(c);
          case Answered(None) => config := Null;
          case Failed => config := ReadFailed;
        }
        assert config == ReadConfig(local, remote, ks[i]);
        if config.Null? {
          assert ks == currentResponsibleKeygroups && ReadConfig(local, remote, currentResponsibleKeygroups[i]).Null?;
          return false;
        }
        if config.Found? {
          currentKeygroupConfigurations := currentKeygroupConfigurations[config.config := config.config.version];
        }
        i := i + 1;
      }
      assert ks[..i] == ks;
      ok := true;
    }

    /** Lines 88-92: starts a subscription update for each current config whose version differs from the saved one. */
    method TriggerChanged()
      modifies this`triggered
      ensures |old(triggered)| <= |triggered| && triggered[..|old(triggered)|] == old(triggered)
      ensures forall c :: c in triggered[|old(triggered)|..] <==>
        c in currentKeygroupConfigurations && Differs(savedKeygroupConfigurations, c, currentKeygroupConfigurations[c])
      ensures forall i, j | |old(triggered)| <= i < j < |triggered| :: triggered[i] != triggered[j]
    {
      var rest := currentKeygroupConfigurations.Keys;
      ghost var start := |triggered|;
      while rest != {}
        invariant rest <= currentKeygroupConfigurations.Keys
        invariant start <= |triggered| && triggered[..start] == old(triggered)
        invariant forall c :: c in triggered[start..] <==>
          c in currentKeygroupConfigurations && c !in rest && Differs(savedKeygroupConfigurations, c, currentKeygroupConfigurations[c])
        invariant forall i, j | start <= i < j < |triggered| :: triggered[i] != triggered[j]
        decreases rest
      {
        var c :| c in rest;
        var differs := CheckIfKeygroupConfigVersionDiffers(c, currentKeygroupConfigurations[c]);
        if differs {
          assert (triggered + [c])[start..] == triggered[start..] + [c];
          triggered := triggered + [c];
        }
        rest := rest - {c};
      }
    }

    /**
     * One pass (lines 60-98). `machine` is this machine's name, `listing` the
     * responsibility table as listed (None: the listing failed), and the configs
     * are read from the local store `local` and, failing that, the naming service.
     */
    method Pass(machine: string, listing: Option<Subscribers>,
                local: map<KeygroupId, KeygroupConfig>, remote: KeygroupId -> ConfigAnswer)
      returns (outcome: PassOutcome)
      modifies this
      ensures outcome == ListingFailed <==> listing.None?
      ensures outcome == ListingFailed ==> currentResponsibleKeygroups == [] && currentKeygroupConfigurations == map[]
      ensures listing.Some? ==> forall k :: k in currentResponsibleKeygroups <==> k in Responsible(listing.value, machine)
      ensures listing.Some? ==> (outcome == Completed <==>
        forall i | 0 <= i < |currentResponsibleKeygroups| :: !ReadConfig(local, remote, currentResponsibleKeygroups[i]).Null?)
      ensures outcome != Completed ==>
        savedKeygroupConfigurations == old(savedKeygroupConfigurations) && triggered == old(triggered)
      ensures outcome == Completed ==>
        && currentKeygroupConfigurations == Collected(currentResponsibleKeygroups, local, remote)
        && savedKeygroupConfigurations == currentKeygroupConfigurations
        && |old(triggered)| <= |triggered| && triggered[..|old(triggered)|] == old(triggered)
        && (forall c :: c in triggered[|old(triggered)|..] <==>
              c in currentKeygroupConfigurations && Differs(old(savedKeygroupConfigurations), c, currentKeygroupConfigurations[c]))
        && (forall i, j | |old(triggered)| <= i < j < |triggered| :: triggered[i] != triggered[j])
    {
      currentResponsibleKeygroups := [];
      currentKeygroupConfigurations := map[];
      if listing.None? {
        return ListingFailed;
      }
      CollectResponsible(listing.value, machine);
      var ok := ReadConfigurations(local, remote);
      if !ok {
        return Aborted;
      }
      TriggerChanged();
      savedKeygroupConfigurations := currentKeygroupConfigurations;
      outcome := Completed;
    }
  }
}
