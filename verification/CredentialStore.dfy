/** The crash-consistent vault store: four files and two registry values that
    do not commit together.

    The store is parameterized by the validity test of vaults; Vaults.IsVaultValid
    is the program's.

    Every primitive step reports on a ghost `trace` the disk states it passes
    through, so a trace holds every state in which a crash can leave the disk.
    A write or a copy that is under way, or that failed, may leave any content
    in the file it writes; a rename and the write of one registry value are
    atomic. Reading a file is a function of its content. */
module CredentialStore {
  import opened Basics
  import opened Vaults
  import MultiString

  const ERROR_FILE_NOT_FOUND := 2
  const ERROR_PATH_NOT_FOUND := 3
  const ERROR_INVALID_DATA := 13

  /** A file: missing, not decodable (with the error of the attempt), or the
      encryption of a vault. */
  datatype Content = Absent | Unreadable(error: nat) | Sealed(vault: Vault)

  datatype Disk = Disk(
    primary: Content,
    backup: Content,
    temporary: Content,
    rollback: Content,
    sidList: Option<string>,
    filterFlag: Option<nat>)

  function ReadVault(c: Content, valid: Vault -> bool): Result<Vault, nat> {
    match c
    case Absent => Failure(ERROR_FILE_NOT_FOUND)
    case Unreadable(error) => Failure(error)
    case Sealed(vault) => if valid(vault) then Success(vault) else Failure(ERROR_INVALID_DATA)
  }

  /** LocalCredentialStore.cpp, Load: the primary, or else the backup. */
  function LoadDisk(d: Disk, valid: Vault -> bool): Result<Vault, nat> {
    var primary := ReadVault(d.primary, valid);
    var backup := ReadVault(d.backup, valid);
    if primary.Success? then primary
    else if backup.Success? then backup
    else Failure(if primary.error != 0 then primary.error else backup.error)
  }

  /** What SynchronizeEnforcedRegistry writes for a vault. */
  function ListOf(v: Vault): Option<string> {
    Some(MultiString.Print(EnforcedSids(v.accounts)))
  }

  function FlagOf(v: Vault): Option<nat> {
    Some(if AnyEnforced(v.accounts) then 1 else 0)
  }

  /** Both registry values are what the store publishes for a vault. */
  predicate Agrees(d: Disk, v: Vault) {
    d.sidList == ListOf(v) && d.filterFlag == FlagOf(v)
  }

  predicate Listed(d: Disk, sid: Sid) {
    exists s :: s in MultiString.Parse(d.sidList) && SameText(s, sid)
  }

  // ----- Crash safety of a trace -----

  /** In every state of the trace the vault that loads is the old one or `v`. */
  ghost predicate OldOrNew(trace: seq<Disk>, before: Result<Vault, nat>, v: Vault, valid: Vault -> bool) {
    forall d :: d in trace ==> LoadDisk(d, valid) == before || LoadDisk(d, valid) == Success(v)
  }

  /** Wherever `v` shows, its policy is already published. */
  ghost predicate PolicyFirst(trace: seq<Disk>, v: Vault, valid: Vault -> bool) {
    forall d :: d in trace && LoadDisk(d, valid) == Success(v) ==> Agrees(d, v)
  }

  /** Up to some point the primary is untouched and what loads is the old vault;
      from there on the backup holds the old vault, if there was one. */
  ghost predicate BackedUp(trace: seq<Disk>, before: Disk, valid: Vault -> bool) {
    exists n: nat :: n <= |trace| && BackedUpFrom(trace, n, before, valid)
  }

  ghost predicate BackedUpFrom(trace: seq<Disk>, n: nat, before: Disk, valid: Vault -> bool)
    requires n <= |trace|
  {
    && (forall i ::
           0 <= i < n ==> trace[i].primary == before.primary && LoadDisk(trace[i], valid) == LoadDisk(before, valid))
    && (forall i ::
           n <= i < |trace| && LoadDisk(before, valid).Success? ==>
             ReadVault(trace[i].backup, valid) == LoadDisk(before, valid))
  }

  lemma AllBefore(trace: seq<Disk>, before: Disk, valid: Vault -> bool)
    requires forall d :: d in trace ==> d.primary == before.primary && LoadDisk(d, valid) == LoadDisk(before, valid)
    ensures BackedUp(trace, before, valid)
  {
    assert BackedUpFrom(trace, |trace|, before, valid);
  }

  lemma RememberedThen(begin: seq<Disk>, rest: seq<Disk>, before: Disk, backup: Content, valid: Vault -> bool)
    requires forall d :: d in begin ==> d.primary == before.primary && LoadDisk(d, valid) == LoadDisk(before, valid)
    requires forall d :: d in rest ==> d.backup == backup
    requires LoadDisk(before, valid).Success? ==> ReadVault(backup, valid) == LoadDisk(before, valid)
    ensures BackedUp(begin + rest, before, valid)
  {
    var trace := begin + rest;
    forall i | |begin| <= i < |trace|
      ensures trace[i].backup == backup
    {
      assert trace[i] == rest[i - |begin|] && trace[i] in rest;
    }
    assert BackedUpFrom(trace, |begin|, before, valid);
  }

  /** Same files as far as Load reads them. */
  predicate SameFiles(d: Disk, e: Disk) {
    d.primary == e.primary && d.backup == e.backup
  }

  /** The states of a registry publication: after the list, after both values. */
  function ListWritten(d: Disk, v: Vault): Disk {
    d.(sidList := ListOf(v))
  }

  function BothWritten(d: Disk, v: Vault): Disk {
    d.(sidList := ListOf(v), filterFlag := FlagOf(v))
  }

  // ----- What a primitive step may do to a disk -----

  /** A write or copy that fails may leave anything in the file it writes. */
  predicate WritesTemporary(d: Disk, v: Vault, ok: bool, e: Disk) {
    e == d.(temporary := e.temporary) && (ok ==> e.temporary == Sealed(v))
  }

  predicate CopiesPrimary(d: Disk, ok: bool, e: Disk) {
    e == d.(backup := e.backup) && (ok ==> e.backup == d.primary)
  }

  predicate CopiesBackup(d: Disk, ok: bool, e: Disk) {
    e == d.(rollback := e.rollback) && (ok ==> e.rollback == d.backup)
  }

  predicate MovesTemporary(d: Disk, ok: bool, e: Disk) {
    e == if ok then d.(primary := d.temporary, temporary := Absent) else d
  }

  predicate MovesRollback(d: Disk, ok: bool, e: Disk) {
    e == if ok then d.(primary := d.rollback, rollback := Absent) else d
  }

  predicate SetsList(d: Disk, value: string, ok: bool, e: Disk) {
    e == if ok then d.(sidList := Some(value)) else d
  }

  predicate SetsFlag(d: Disk, value: nat, ok: bool, e: Disk) {
    e == if ok then d.(filterFlag := Some(value)) else d
  }

  class Machine {
    const valid: Vault -> bool
    var primary: Content
    var backup: Content
    var temporary: Content
    var rollback: Content
    var sidList: Option<string>
    var filterFlag: Option<nat>

    /** How many steps have failed so far. */
    ghost var faults: nat

    constructor (d: Disk, valid: Vault -> bool)
      ensures Now() == d && this.valid == valid
    {
      this.valid := valid;
      primary, backup, temporary, rollback := d.primary, d.backup, d.temporary, d.rollback;
      sidList, filterFlag := d.sidList, d.filterFlag;
    }

    ghost function Now(): Disk
      reads this
    {
      Disk(primary, backup, temporary, rollback, sidList, filterFlag)
    }

    ghost function Loaded(): Result<Vault, nat>
      reads this
    {
      LoadDisk(Now(), valid)
    }

    // ----- Primitive steps -----

    method WriteTemporary(v: Vault) returns (ok: bool, ghost trace: seq<Disk>)
      modifies `temporary, `faults
      ensures |trace| == 2 && trace[1] == Now()
      ensures trace[0] == Now().(temporary := trace[0].temporary)
      ensures WritesTemporary(old(Now()), v, ok, Now())
      ensures faults == old(faults) + if ok then 0 else 1
    {
      temporary := *;
      trace := [Now()];
      ok := *;
      if ok {
        temporary := Sealed(v);
      } else {
        faults := faults + 1;
      }
      trace := trace + [Now()];
    }

    method CopyPrimaryToBackup() returns (ok: bool, ghost trace: seq<Disk>)
      modifies `backup, `faults
      ensures |trace| == 2 && trace[1] == Now()
      ensures trace[0] == Now().(backup := trace[0].backup)
      ensures CopiesPrimary(old(Now()), ok, Now())
      ensures faults == old(faults) + if ok then 0 else 1
    {
      backup := *;
      trace := [Now()];
      ok := *;
      if ok {
        backup := primary;
      } else {
        faults := faults + 1;
      }
      trace := trace + [Now()];
    }

    method CopyBackupToRollback() returns (ok: bool, ghost trace: seq<Disk>)
      modifies `rollback, `faults
      ensures |trace| == 2 && trace[1] == Now()
      ensures trace[0] == Now().(rollback := trace[0].rollback)
      ensures CopiesBackup(old(Now()), ok, Now())
      ensures faults == old(faults) + if ok then 0 else 1
    {
      rollback := *;
      trace := [Now()];
      ok := *;
      if ok {
        rollback := backup;
      } else {
        faults := faults + 1;
      }
      trace := trace + [Now()];
    }

    method MoveTemporaryToPrimary() returns (ok: bool, ghost trace: seq<Disk>)
      modifies `primary, `temporary, `faults
      ensures trace == [Now()]
      ensures MovesTemporary(old(Now()), ok, Now())
      ensures faults == old(faults) + if ok then 0 else 1
    {
      ok := *;
      if ok {
        primary, temporary := temporary, Absent;
      } else {
        faults := faults + 1;
      }
      trace := [Now()];
    }

    method MoveRollbackToPrimary() returns (ok: bool, ghost trace: seq<Disk>)
      modifies `primary, `rollback, `faults
      ensures trace == [Now()]
      ensures MovesRollback(old(Now()), ok, Now())
      ensures faults == old(faults) + if ok then 0 else 1
    {
      ok := *;
      if ok {
        primary, rollback := rollback, Absent;
      } else {
        faults := faults + 1;
      }
      trace := [Now()];
    }

    /** DeleteFileW, whose result the program ignores. */
    method DeleteTemporary() returns (ghost trace: seq<Disk>)
      modifies `temporary
      ensures trace == [Now()]
      ensures Now() == old(Now()) || Now() == old(Now()).(temporary := Absent)
    {
      if * {
        temporary := Absent;
      }
      trace := [Now()];
    }

    method DeleteRollback() returns (ghost trace: seq<Disk>)
      modifies `rollback
      ensures trace == [Now()]
      ensures Now() == old(Now()) || Now() == old(Now()).(rollback := Absent)
    {
      if * {
        rollback := Absent;
      }
      trace := [Now()];
    }

    method SetSidList(value: string) returns (ok: bool)
      modifies `sidList, `faults
      ensures SetsList(old(Now()), value, ok, Now())
      ensures faults == old(faults) + if ok then 0 else 1
    {
      ok := *;
      if ok {
        sidList := Some(value);
      } else {
        faults := faults + 1;
      }
    }

    method SetFilterFlag(value: nat) returns (ok: bool)
      modifies `filterFlag, `faults
      ensures SetsFlag(old(Now()), value, ok, Now())
      ensures faults == old(faults) + if ok then 0 else 1
    {
      ok := *;
      if ok {
        filterFlag := Some(value);
      } else {
        faults := faults + 1;
      }
    }

    // ----- Reading -----

    method Load() returns (r: Result<Vault, nat>)
      ensures r == Loaded()
    {
      var first := ReadFile(primary);
      if first.Success? {
        return first;
      }
      var second := ReadFile(backup);
      if second.Success? {
        return second;
      }
      r := Failure(if first.error != 0 then first.error else second.error);
    }

    method ReadFile(c: Content) returns (r: Result<Vault, nat>)
      ensures r == ReadVault(c, valid)
    {
      match c {
        case Absent => r := Failure(ERROR_FILE_NOT_FOUND);
        case Unreadable(error) => r := Failure(error);
        case Sealed(vault) =>
          r := if valid(vault) then Success(vault) else Failure(ERROR_INVALID_DATA);
      }
    }

    method IsSidEnforced(sid: Sid) returns (listed: bool)
      ensures listed <==> Listed(Now(), sid)
    {
      var sids := MultiString.GetMultiSZ(sidList);
      listed := exists s :: s in sids && SameText(s, sid);
    }

    // ----- Publishing the policy -----

    /** Two values, written one after the other. */
    method SynchronizeEnforcedRegistry(v: Vault) returns (ok: bool, ghost trace: seq<Disk>)
      modifies `sidList, `filterFlag, `faults
      ensures ok ==>
        trace == [ListWritten(old(Now()), v), BothWritten(old(Now()), v)] && Now() == BothWritten(old(Now()), v)
      ensures !ok ==>
        || (trace == [] && Now() == old(Now()))
        || (trace == [ListWritten(old(Now()), v)] && Now() == ListWritten(old(Now()), v))
      ensures faults >= old(faults) && (ok <==> faults == old(faults))
    {
      trace := [];
      var keyOpen: bool := *;
      if !keyOpen {
        faults := faults + 1;
        return false, [];
      }
      var multi, enforcedCount := PrintEnforced(v.accounts);
      ok := SetSidList(multi);
      if ok {
        trace := [Now()];
        ok := SetFilterFlag(if enforcedCount > 0 then 1 else 0);
        if ok {
          trace := trace + [Now()];
        }
      }
    }

    // ----- Saving -----

    /** The backup is renewed only from a primary that loads; on success `previous`
        is the vault that loads, and the backup holds it. */
    method RememberPrevious() returns (ok: bool, previous: Option<Vault>, ghost trace: seq<Disk>)
      modifies `backup, `faults
      ensures forall d ::
        d in trace ==> d.primary == primary && LoadDisk(d, valid) == old(Loaded()) && SamePolicy(d, Now())
      ensures Loaded() == old(Loaded())
      ensures trace != [] ==> trace[|trace| - 1] == Now()
      ensures trace == [] ==> Now() == old(Now())
      ensures ok ==>
        previous == VaultOf(Loaded()) && (previous.Some? ==> ReadVault(backup, valid) == Success(previous.value))
      ensures faults >= old(faults) && (ok <==> faults == old(faults))
    {
      trace := [];
      var first := ReadFile(primary);
      if first.Success? {
        ok, trace := CopyPrimaryToBackup();
        if !ok {
          return false, None, trace;
        }
        return true, Some(first.value), trace;
      }
      var second := ReadFile(backup);
      if second.Success? {
        return true, Some(second.value), [];
      }
      return true, None, [];
    }

    /** The undo of a published file: the backup, through a scratch copy. */
    method RestorePreviousFile(previous: Option<Vault>) returns (ok: bool, ghost trace: seq<Disk>)
      modifies `primary, `rollback, `faults
      ensures forall d :: d in trace ==>
        SamePolicy(d, Now()) && d.backup == backup && (d.primary == old(primary) || d.primary == backup)
      ensures primary == if ok then backup else old(primary)
      ensures previous.None? ==> !ok && trace == []
      ensures trace != [] ==> trace[|trace| - 1] == Now()
      ensures trace == [] ==> Now() == old(Now())
      ensures faults >= old(faults)
    {
      trace := [];
      if previous.None? {
        return false, [];
      }
      ok, trace := CopyBackupToRollback();
      if !ok {
        return false, trace;
      }
      ghost var more;
      ok, more := MoveRollbackToPrimary();
      trace := trace + more;
      if ok {
        return true, trace;
      }
      more := DeleteRollback();
      trace := trace + more;
      return false, trace;
    }

    /** Where Save stands once the new vault is in the temporary file and the
        previous one is remembered. */
    ghost predicate Prepared(v: Vault, previous: Option<Vault>)
      reads this
    {
      && valid(v) && temporary == Sealed(v)
      && previous == VaultOf(Loaded())
      && (previous.Some? ==> ReadVault(backup, valid) == Success(previous.value))
    }

    /** The undo of a publication that came too early, and the clean-up. */
    method RestorePolicy(previous: Option<Vault>, ghost before: Disk, ghost v: Vault)
      returns (ghost undone: bool, ghost trace: seq<Disk>)
      requires PolicyAmong(Now(), before, v, previous)
      modifies `temporary, `sidList, `filterFlag, `faults
      ensures trace != [] && trace[|trace| - 1] == Now()
      ensures forall d :: d in trace ==> SameFiles(d, Now()) && PolicyAmong(d, before, v, previous)
      ensures undone && previous.Some? ==> Agrees(Now(), previous.value)
      ensures faults >= old(faults)
    {
      undone, trace := true, [];
      if previous.Some? {
        undone, trace := SynchronizeEnforcedRegistry(previous.value);
      }
      ghost var more := DeleteTemporary();
      trace := trace + more;
    }

    /** The rest of Save for a vault that enforces some account: first the policy,
        then the vault. `undone` reports that no undo step failed. */
    method ReplaceEnforcing(v: Vault, previous: Option<Vault>)
      returns (ok: bool, ghost trace: seq<Disk>, ghost undone: bool)
      requires Prepared(v, previous) && AnyEnforced(v.accounts)
      modifies `primary, `temporary, `sidList, `filterFlag, `faults
      ensures trace != [] && trace[|trace| - 1] == Now()
      ensures forall d :: d in trace ==>
        || (SameFiles(d, old(Now())) && PolicyAmong(d, old(Now()), v, previous))
        || (LoadDisk(d, valid) == Success(v) && Agrees(d, v))
      ensures forall d :: d in trace ==> d.backup == backup
      ensures ok ==> primary == Sealed(v) && temporary == Absent && Agrees(Now(), v)
      ensures !ok ==> SameFiles(Now(), old(Now()))
      ensures !ok && undone && previous.Some? ==> Agrees(Now(), previous.value)
      ensures ok ==> trace == EnforcingPath(old(Now()), v)
      ensures faults >= old(faults) && (ok <==> faults == old(faults))
    {
      undone := true;
      ghost var more;
      ok, trace := SynchronizeEnforcedRegistry(v);
      if !ok {
        undone, more := RestorePolicy(previous, old(Now()), v);
        return false, trace + more, undone;
      }
      ok, more := MoveTemporaryToPrimary();
      trace := trace + more;
      if !ok {
        undone, more := RestorePolicy(previous, old(Now()), v);
        return false, trace + more, undone;
      }
      LoadOfSealed(Now(), v, valid);
    }

    /** The rest of Save for a vault that enforces nobody: the policy is removed
        only after the vault is in place. */
    method ReplaceRelaxing(v: Vault, previous: Option<Vault>)
      returns (ok: bool, ghost trace: seq<Disk>, ghost undone: bool)
      requires Prepared(v, previous) && !AnyEnforced(v.accounts)
      modifies `primary, `temporary, `rollback, `sidList, `filterFlag, `faults
      ensures trace != [] && trace[|trace| - 1] == Now()
      ensures forall d :: d in trace ==> d.backup == backup && PrimaryAmong(d, old(Now()), v, previous)
      ensures ok ==> primary == Sealed(v) && temporary == Absent && Agrees(Now(), v)
      ensures !ok && undone && previous.Some? ==>
        || (SameFiles(Now(), old(Now())) && SamePolicy(Now(), old(Now())))
        || (primary == backup && Agrees(Now(), previous.value))
      ensures ok ==> trace == RelaxingPath(old(Now()), v)
      ensures faults >= old(faults) && (ok <==> faults == old(faults))
    {
      undone := true;
      ghost var more;
      ok, trace := MoveTemporaryToPrimary();
      if !ok {
        more := DeleteTemporary();
        return false, trace + more, undone;
      }
      ok, more := SynchronizeEnforcedRegistry(v);
      trace := trace + more;
      if !ok {
        var restored;
        restored, more := RestorePreviousFile(previous);
        trace := trace + more;
        undone := restored;
        if previous.Some? {
          var synchronized;
          synchronized, more := SynchronizeEnforcedRegistry(previous.value);
          trace := trace + more;
          undone := restored && synchronized;
        }
        return false, trace + [Now()], undone;
      }
    }

    /** The steps of Save up to the remembered previous vault. */
    method Prepare(v: Vault) returns (ok: bool, previous: Option<Vault>, ghost trace: seq<Disk>)
      requires valid(v)
      modifies `temporary, `backup, `faults
      ensures if trace == [] then Now() == old(Now()) else trace[|trace| - 1] == Now()
      ensures forall d :: d in trace ==> LoadDisk(d, valid) == old(Loaded()) && SamePolicy(d, old(Now()))
      ensures forall d :: d in trace ==> d.primary == primary
      ensures Loaded() == old(Loaded()) && SamePolicy(Now(), old(Now()))
      ensures ok ==> Prepared(v, previous)
      ensures faults >= old(faults) && (ok <==> faults == old(faults))
    {
      previous := None;
      var directoryOk: bool := *;
      if !directoryOk {
        faults := faults + 1;
        return false, None, [];
      }
      ok, trace := WriteTemporary(v);
      if !ok {
        return false, None, trace;
      }
      ghost var more;
      ok, previous, more := RememberPrevious();
      trace := trace + more;
      if !ok {
        more := DeleteTemporary();
        return false, None, trace + more;
      }
    }

    /** The steps of Save that replace the file and the policy. */
    method Commit(v: Vault, previous: Option<Vault>)
      returns (ok: bool, ghost trace: seq<Disk>, ghost undone: bool)
      requires Prepared(v, previous)
      modifies `primary, `temporary, `rollback, `sidList, `filterFlag, `faults
      ensures trace != [] && trace[|trace| - 1] == Now()
      ensures forall d :: d in trace ==> d.backup == backup
      ensures OldOrNew(trace, old(Loaded()), v, valid)
      ensures ok ==> Loaded() == Success(v) && Agrees(Now(), v) && temporary == Absent
      ensures !ok && undone && InStep(old(Now()), old(Loaded())) ==>
        Loaded() == old(Loaded()) && InStep(Now(), old(Loaded()))
      ensures !ok && AnyEnforced(v.accounts) ==> Loaded() == old(Loaded())
      ensures InStep(old(Now()), old(Loaded())) && AnyEnforced(v.accounts) ==> PolicyFirst(trace, v, valid)
      ensures ok ==> trace == PathOf(old(Now()), v)
      ensures faults >= old(faults) && (ok <==> faults == old(faults))
    {
      if exists i :: 0 <= i < |v.accounts| && v.accounts[i].enforced {
        ok, trace, undone := ReplaceEnforcing(v, previous);
        EnforcingStates(trace, old(Now()), old(Loaded()), v, previous, valid);
      } else {
        ok, trace, undone := ReplaceRelaxing(v, previous);
        RelaxingStates(trace, old(Now()), old(Loaded()), v, previous, valid);
      }
      if ok { LoadOfSealed(Now(), v, valid); }
    }

    /** LocalCredentialStore.cpp, Save. `undone` reports that no undo step failed. */
    method Save(v: Vault) returns (ok: bool, ghost trace: seq<Disk>, ghost undone: bool)
      modifies this
      ensures if trace == [] then Now() == old(Now()) else trace[|trace| - 1] == Now()
      ensures !valid(v) ==> !ok && trace == []
      ensures OldOrNew(trace, old(Loaded()), v, valid)
      ensures BackedUp(trace, old(Now()), valid)
      ensures ok ==> Loaded() == Success(v) && Agrees(Now(), v) && temporary == Absent
      ensures ok && old(Loaded()).Success? ==> ReadVault(backup, valid) == old(Loaded())
      ensures !ok && undone && InStep(old(Now()), old(Loaded())) ==>
        Loaded() == old(Loaded()) && InStep(Now(), old(Loaded()))
      ensures !ok && AnyEnforced(v.accounts) ==> Loaded() == old(Loaded())
      ensures InStep(old(Now()), old(Loaded())) && AnyEnforced(v.accounts) ==> PolicyFirst(trace, v, valid)
      ensures ok && InStep(old(Now()), old(Loaded())) ==> MovesFrom(trace, old(Loaded()).value, v, valid)
      ensures faults >= old(faults) && (valid(v) ==> (ok <==> faults == old(faults)))
    {
      if !valid(v) {
        AllBefore([], Now(), valid);
        return false, [], true;
      }
      var previous;
      ok, previous, trace := Prepare(v);
      if !ok {
        AllBefore(trace, old(Now()), valid);
        return false, trace, true;
      }
      ghost var e, u, begin := Now(), Loaded(), trace;
      ok, trace, undone := Commit(v, previous);
      if ok && InStep(e, u) {
        PathMoves(begin, e, u.value, v, valid);
      }
      RememberedThen(begin, trace, old(Now()), backup, valid);
      trace := begin + trace;
    }

    // ----- Operations on the loaded vault -----

    /** LocalCredentialStore.cpp, LoadOrCreate. A fresh vault is made when the
        primary is missing and the backup does not load; `newId` is what
        GenerateHexId returns. */
    method LoadOrCreate(newId: string) returns (r: Result<Vault, nat>, ghost trace: seq<Disk>)
      modifies this
      ensures if trace == [] then Now() == old(Now()) else trace[|trace| - 1] == Now()
      ensures OldOrNew(trace, old(Loaded()), FreshVault(newId), valid)
      ensures (Creates(old(Loaded())) && newId != "") || trace == []
      ensures old(Loaded()).Success? ==> r == old(Loaded())
      ensures r.Success? ==> Loaded() == r
      ensures r.Success? && old(Loaded()).Failure? ==>
        Creates(old(Loaded())) && newId != "" && r.value == FreshVault(newId) && Agrees(Now(), r.value)
      ensures MayNotCreate(old(Now()), valid) ==> trace == [] && Now() == old(Now()) && r.Failure?
      ensures r.Success? && old(Loaded()).Failure? ==> r.value.accounts == [] && r.value.machineId == newId
      ensures faults >= old(faults) && (old(Loaded()).Success? ==> faults == old(faults))
      ensures faults == old(faults) ==>
        (r.Success? <==> BaseOf(old(Loaded()), newId).Some? && valid(BaseOf(old(Loaded()), newId).value))
    {
      trace := [];
      r := Load();
      if r.Success? {
        return r, [];
      }
      if r.error != ERROR_FILE_NOT_FOUND && r.error != ERROR_PATH_NOT_FOUND {
        return r, [];
      }
      if newId == "" {
        return r, [];
      }
      var saved;
      ghost var undone;
      saved, trace, undone := Save(FreshVault(newId));
      if saved {
        r := Success(FreshVault(newId));
      }
    }

    /** LocalCredentialStore.cpp, RefreshLocalAccounts: on success the registry is
        in step with the vault that loads, whatever state the disk was in. */
    method RefreshLocalAccounts(newId: string, resolve: Sid -> Resolution)
      returns (ok: bool, ghost trace: seq<Disk>)
      modifies this
      ensures if trace == [] then Now() == old(Now()) else trace[|trace| - 1] == Now()
      ensures Through(trace, old(Loaded()), old(Base(newId)), Changed(old(Base(newId)), Refreshing(resolve)), valid)
      ensures ok ==> Committed(Changed(old(Base(newId)), Refreshing(resolve)))
      ensures faults >= old(faults)
      ensures faults == old(faults) ==>
        (ok <==> Sound(old(Base(newId))) && Sound(Changed(old(Base(newId)), Refreshing(resolve))))
    {
      var r;
      r, trace := LoadOrCreate(newId);
      if r.Failure? {
        return false, trace;
      }
      var vault := r.value;
      var accounts, changed := RefreshAccounts(vault.accounts, resolve);
      if accounts.None? {
        return false, trace;
      }
      ghost var more;
      if changed {
        ghost var undone;
        ok, more, undone := Save(vault.(accounts := accounts.value));
      } else {
        ok, more := SynchronizeEnforcedRegistry(vault);
      }
      trace := trace + more;
    }

    /** The vault an operation works on. */
    ghost function Base(newId: string): Option<Vault>
      reads this
    {
      BaseOf(Loaded(), newId)
    }

    /** There is a vault, and it passes the validity test. */
    ghost predicate Sound(v: Option<Vault>)
      reads this
    {
      v.Some? && valid(v.value)
    }

    /** The changed vault is what loads, and the registry is in step with it. */
    ghost predicate Committed(changed: Option<Vault>)
      reads this
    {
      changed.Some? && Loaded() == Success(changed.value) && InStep(Now(), Loaded())
    }

    /** A failed save of a vault that enforces some account has changed nothing. */
    ghost predicate Unharmed(before: Result<Vault, nat>, changed: Option<Vault>)
      reads this
    {
      changed.None? || AnyEnforced(changed.value.accounts) ==> Loaded() == before
    }

    method FindAccount(sid: Sid, newId: string) returns (r: Option<AccountRecord>, ghost trace: seq<Disk>)
      modifies this
      ensures if trace == [] then Now() == old(Now()) else trace[|trace| - 1] == Now()
      ensures Through(trace, old(Loaded()), old(Base(newId)), None, valid)
      ensures old(Loaded()).Success? ==> trace == [] && r == AccountOf(old(Loaded()).value, sid)
      ensures r.Some? ==> Loaded().Success? && r == AccountOf(Loaded().value, sid)
      ensures faults >= old(faults) && (old(Loaded()).Success? ==> faults == old(faults))
    {
      var loaded;
      loaded, trace := LoadOrCreate(newId);
      if loaded.Failure? {
        return None, trace;
      }
      var k := Vaults.FindAccount(loaded.value.accounts, sid);
      r := if k < |loaded.value.accounts| then Some(loaded.value.accounts[k]) else None;
    }

    /** Loads, applies a change to the vault, and saves it. */
    method LoadChangeSave(change: Vault -> Option<Vault>, newId: string) returns (ok: bool, ghost trace: seq<Disk>)
      modifies this
      ensures if trace == [] then Now() == old(Now()) else trace[|trace| - 1] == Now()
      ensures Through(trace, old(Loaded()), old(Base(newId)), Changed(old(Base(newId)), change), valid)
      ensures ok ==> Committed(Changed(old(Base(newId)), change))
      ensures !ok && old(Loaded()).Success? ==> Unharmed(old(Loaded()), Changed(old(Base(newId)), change))
      ensures faults >= old(faults)
      ensures faults == old(faults) ==> (ok <==> Sound(old(Base(newId))) && Sound(Changed(old(Base(newId)), change)))
    {
      var loaded;
      loaded, trace := LoadOrCreate(newId);
      if loaded.Failure? {
        return false, trace;
      }
      var changed := change(loaded.value);
      if changed.None? {
        return false, trace;
      }
      ghost var more, undone;
      ok, more, undone := Save(changed.value);
      trace := trace + more;
    }

    /** LocalCredentialStore.cpp, UpsertAccount. */
    method UpsertAccount(account: AccountRecord, newId: string) returns (ok: bool, ghost trace: seq<Disk>)
      modifies this
      ensures if trace == [] then Now() == old(Now()) else trace[|trace| - 1] == Now()
      ensures Through(trace, old(Loaded()), old(Base(newId)), Changed(old(Base(newId)), Upserting(account)), valid)
      ensures ok ==> Committed(Changed(old(Base(newId)), Upserting(account)))
      ensures !ok && old(Loaded()).Success? ==> Unharmed(old(Loaded()), Changed(old(Base(newId)), Upserting(account)))
      ensures faults >= old(faults)
      ensures faults == old(faults) ==>
        (ok <==> Sound(old(Base(newId))) && Sound(Changed(old(Base(newId)), Upserting(account))))
    {
      ok, trace := LoadChangeSave(Upserting(account), newId);
    }

    /** LocalCredentialStore.cpp, RemoveCredential. */
    method RemoveCredential(sid: Sid, credentialId: string, newId: string) returns (ok: bool, ghost trace: seq<Disk>)
      modifies this
      ensures if trace == [] then Now() == old(Now()) else trace[|trace| - 1] == Now()
      ensures Through(trace, old(Loaded()), old(Base(newId)), Changed(old(Base(newId)), Removing(sid, credentialId)),
                      valid)
      ensures ok ==> Committed(Changed(old(Base(newId)), Removing(sid, credentialId)))
      ensures !ok && old(Loaded()).Success? ==>
        Unharmed(old(Loaded()), Changed(old(Base(newId)), Removing(sid, credentialId)))
      ensures faults >= old(faults)
      ensures faults == old(faults) ==>
        (ok <==> Sound(old(Base(newId))) && Sound(Changed(old(Base(newId)), Removing(sid, credentialId))))
    {
      ok, trace := LoadChangeSave(Removing(sid, credentialId), newId);
    }

    /** LocalCredentialStore.cpp, SetEnforced. */
    method SetEnforced(sid: Sid, enforced: bool, newId: string) returns (ok: bool, ghost trace: seq<Disk>)
      modifies this
      ensures if trace == [] then Now() == old(Now()) else trace[|trace| - 1] == Now()
      ensures Through(trace, old(Loaded()), old(Base(newId)), Changed(old(Base(newId)), Enforcing(sid, enforced)),
                      valid)
      ensures ok ==> Committed(Changed(old(Base(newId)), Enforcing(sid, enforced)))
      ensures !ok && old(Loaded()).Success? ==>
        Unharmed(old(Loaded()), Changed(old(Base(newId)), Enforcing(sid, enforced)))
      ensures faults >= old(faults)
      ensures faults == old(faults) ==>
        (ok <==> Sound(old(Base(newId))) && Sound(Changed(old(Base(newId)), Enforcing(sid, enforced))))
    {
      ok, trace := LoadChangeSave(Enforcing(sid, enforced), newId);
    }
  }

  function Upserting(account: AccountRecord): Vault -> Option<Vault> { v => Some(Upserted(v, account)) }

  function Removing(sid: Sid, credentialId: string): Vault -> Option<Vault> {
    v => WithoutCredential(v, sid, credentialId)
  }

  function Enforcing(sid: Sid, enforced: bool): Vault -> Option<Vault> { v => WithEnforcement(v, sid, enforced) }

  /** In every state the old vault, the one worked on, or the changed one loads. */
  ghost predicate Through(trace: seq<Disk>, before: Result<Vault, nat>, base: Option<Vault>, changed: Option<Vault>,
                          valid: Vault -> bool) {
    forall d :: d in trace ==>
      || LoadDisk(d, valid) == before
      || (base.Some? && LoadDisk(d, valid) == Success(base.value))
      || (changed.Some? && LoadDisk(d, valid) == Success(changed.value))
  }

  function BaseOf(loaded: Result<Vault, nat>, newId: string): Option<Vault> {
    if loaded.Success? then Some(loaded.value)
    else if Creates(loaded) && newId != "" then Some(FreshVault(newId))
    else None
  }

  function Changed(base: Option<Vault>, change: Vault -> Option<Vault>): Option<Vault> {
    if base.None? then None else change(base.value)
  }

  function AccountOf(v: Vault, sid: Sid): Option<AccountRecord> {
    AccountIn(v.accounts, sid)
  }

  predicate HoldsVault(c: Content, valid: Vault -> bool) {
    c.Sealed? && valid(c.vault)
  }

  /** The file is not there, or its directory is not. */
  predicate IsMissing(c: Content) {
    c == Absent || c == Unreadable(2) || c == Unreadable(3)
  }

  /** No vault loads, and the primary is not missing: there is something in it. Only
      a primary that fails without an error leaves the decision to the backup. */
  predicate MayNotCreate(d: Disk, valid: Vault -> bool) {
    && !HoldsVault(d.primary, valid) && !HoldsVault(d.backup, valid)
    && !IsMissing(d.primary) && !(d.primary == Unreadable(0) && IsMissing(d.backup))
  }

  /** On the files themselves: which vault loads, and when LoadOrCreate may replace
      the store by a fresh one. */
  lemma LoadIsDecidedByFiles(d: Disk, valid: Vault -> bool)
    ensures HoldsVault(d.primary, valid) ==> LoadDisk(d, valid) == Success(d.primary.vault)
    ensures !HoldsVault(d.primary, valid) && HoldsVault(d.backup, valid) ==>
      LoadDisk(d, valid) == Success(d.backup.vault)
    ensures LoadDisk(d, valid).Success? <==> HoldsVault(d.primary, valid) || HoldsVault(d.backup, valid)
    ensures Creates(LoadDisk(d, valid)) <==>
      && !HoldsVault(d.primary, valid) && !HoldsVault(d.backup, valid)
      && (IsMissing(d.primary) || (d.primary == Unreadable(0) && IsMissing(d.backup)))
  {
  }

  /** Load errors that make LoadOrCreate start afresh. */
  predicate Creates(loaded: Result<Vault, nat>) {
    loaded.Failure? && (loaded.error == ERROR_FILE_NOT_FOUND || loaded.error == ERROR_PATH_NOT_FOUND)
  }

  function FreshVault(newId: string): Vault {
    Vault(SCHEMA_VERSION, newId, RpIdOf(newId), [])
  }

  /** A fresh vault enforces nobody, and passes the test of the program exactly when
      the machine got an identifier of 32 hexadecimal digits. */
  lemma FreshIsValidIff(newId: string, sidOk: Sid -> bool)
    ensures FreshVault(newId).accounts == []
    ensures ValidVault(FreshVault(newId), sidOk)
      <==> |newId| == 32 && forall i :: 0 <= i < 32 ==> '0' <= newId[i] <= '9' || 'a' <= newId[i] <= 'f'
  {
    ValidInNumbers(FreshVault(newId), sidOk);
  }

  /** What the operating system says about the SID of an account. */
  datatype Resolution = Mapped(name: string) | Unmapped | Unresolved

  /** The accounts after a refresh: the unmapped ones are gone, the others keep
      their order and everything but their name; None when a SID does not resolve. */
  function Refreshed(accounts: seq<AccountRecord>, resolve: Sid -> Resolution): Option<seq<AccountRecord>> {
    if accounts == [] then Some([])
    else
      var others := Refreshed(accounts[1..], resolve);
      match resolve(accounts[0].sid)
      case Unresolved => None
      case Unmapped => others
      case Mapped(name) =>
        if others.None? then None else Some([Renamed(accounts[0], name)] + others.value)
  }

  function Renamed(a: AccountRecord, name: string): AccountRecord {
    if SameText(a.username, name) then a else a.(username := name)
  }

  function RefreshedVault(v: Vault, resolve: Sid -> Resolution): Option<Vault> {
    var accounts := Refreshed(v.accounts, resolve);
    if accounts.None? then None else Some(v.(accounts := accounts.value))
  }

  function Refreshing(resolve: Sid -> Resolution): Vault -> Option<Vault> { v => RefreshedVault(v, resolve) }

  /** The loop of RefreshLocalAccounts, erasing and renaming in place. */
  method RefreshAccounts(original: seq<AccountRecord>, resolve: Sid -> Resolution)
    returns (refreshed: Option<seq<AccountRecord>>, changed: bool)
    ensures refreshed == Refreshed(original, resolve)
    ensures refreshed.Some? && !changed ==> refreshed.value == original
  {
    var accounts, it := original, 0;
    changed := false;
    assert accounts[it..] == accounts;
    PrependNothing(Refreshed(accounts, resolve));
    while it < |accounts|
      invariant it <= |accounts| <= |original|
      invariant Refreshed(original, resolve) == Prepended(accounts[..it], Refreshed(accounts[it..], resolve))
      invariant !changed ==> accounts == original
      decreases |accounts| - it
    {
      ghost var before := accounts;
      var account := accounts[it];
      assert accounts[it..][1..] == accounts[it + 1..];
      match resolve(account.sid) {
        case Unmapped =>
          accounts := accounts[..it] + accounts[it + 1..];
          assert accounts[it..] == before[it + 1..] && accounts[..it] == before[..it];
          changed := true;
        case Unresolved =>
          return None, changed;
        case Mapped(currentName) =>
          if !SameText(account.username, currentName) {
            accounts := accounts[it := account.(username := currentName)];
            changed := true;
          }
          assert accounts[..it + 1] == before[..it] + [Renamed(account, currentName)];
          assert accounts[it + 1..] == before[it + 1..];
          PrependOne(before[..it], Renamed(account, currentName), Refreshed(before[it + 1..], resolve));
          it := it + 1;
      }
    }
    assert accounts[it..] == [] && accounts[..it] == accounts && accounts + [] == accounts;
    refreshed := Some(accounts);
  }

  function Prepended(first: seq<AccountRecord>, others: Option<seq<AccountRecord>>): Option<seq<AccountRecord>> {
    if others.None? then None else Some(first + others.value)
  }

  lemma PrependNothing(others: Option<seq<AccountRecord>>)
    ensures Prepended([], others) == others
  {
    if others.Some? {
      assert [] + others.value == others.value;
    }
  }

  lemma PrependOne(first: seq<AccountRecord>, a: AccountRecord, others: Option<seq<AccountRecord>>)
    ensures Prepended(first, if others.None? then None else Some([a] + others.value)) == Prepended(first + [a], others)
  {
    if others.Some? {
      assert first + ([a] + others.value) == first + [a] + others.value;
    }
  }

  /** A vault loads and both registry values are its own. */
  predicate InStep(d: Disk, loaded: Result<Vault, nat>) {
    loaded.Success? && Agrees(d, loaded.value)
  }

  /** What a sign-in depends on: the vault that loads and the registry list. */
  predicate Shows(d: Disk, u: Vault, listOf: Vault, valid: Vault -> bool) {
    LoadDisk(d, valid) == Success(u) && d.sidList == ListOf(listOf)
  }

  /** The trace leaves `u` with its list, passes through one mixed view, and
      arrives at `v` with its list, never turning back. */
  ghost predicate MovesFrom(trace: seq<Disk>, u: Vault, v: Vault, valid: Vault -> bool) {
    exists i, j :: 0 <= i <= j <= |trace| && Moves(trace, i, j, u, v, valid)
  }

  ghost predicate Moves(trace: seq<Disk>, i: nat, j: nat, u: Vault, v: Vault, valid: Vault -> bool)
    requires i <= j <= |trace|
  {
    && (forall k :: 0 <= k < i ==> Shows(trace[k], u, u, valid))
    && (forall k ::
           i <= k < j ==>
             if AnyEnforced(v.accounts) then Shows(trace[k], u, v, valid) else Shows(trace[k], v, u, valid))
    && (forall k :: j <= k < |trace| ==> Shows(trace[k], v, v, valid))
  }

  lemma EnforcingStates(trace: seq<Disk>, e: Disk, u: Result<Vault, nat>, v: Vault, previous: Option<Vault>,
                        valid: Vault -> bool)
    requires LoadDisk(e, valid) == u && previous == VaultOf(u)
    requires forall d :: d in trace ==>
      || (SameFiles(d, e) && PolicyAmong(d, e, v, previous))
      || (LoadDisk(d, valid) == Success(v) && Agrees(d, v))
    ensures OldOrNew(trace, u, v, valid)
    ensures InStep(e, u) ==> PolicyFirst(trace, v, valid)
  {
    forall d | d in trace && SameFiles(d, e)
      ensures LoadDisk(d, valid) == u
    {
    }
  }

  lemma RelaxingStates(trace: seq<Disk>, e: Disk, u: Result<Vault, nat>, v: Vault, previous: Option<Vault>,
                       valid: Vault -> bool)
    requires LoadDisk(e, valid) == u && previous == VaultOf(u) && valid(v)
    requires previous.Some? ==> ReadVault(e.backup, valid) == u
    requires forall d :: d in trace ==> d.backup == e.backup && PrimaryAmong(d, e, v, previous)
    ensures OldOrNew(trace, u, v, valid)
  {
    forall d | d in trace
      ensures LoadDisk(d, valid) == u || LoadDisk(d, valid) == Success(v)
    {
      if d.primary == Sealed(v) { LoadOfSealed(d, v, valid); }
    }
  }

  lemma PathMoves(begin: seq<Disk>, e: Disk, u: Vault, v: Vault, valid: Vault -> bool)
    requires valid(v) && LoadDisk(e, valid) == Success(u) && Agrees(e, u)
    requires forall d :: d in begin ==> Shows(d, u, u, valid)
    ensures MovesFrom(begin + PathOf(e, v), u, v, valid)
  {
    var path := PathOf(e, v);
    LoadOfSealed(path[2], v, valid);
    if AnyEnforced(v.accounts) {
      assert LoadDisk(path[0], valid) == LoadDisk(path[1], valid) == LoadDisk(e, valid);
      assert Moves(begin + path, |begin|, |begin| + 2, u, v, valid);
    } else {
      LoadOfSealed(path[0], v, valid);
      LoadOfSealed(path[1], v, valid);
      assert Moves(begin + path, |begin|, |begin| + 1, u, v, valid);
    }
  }

  /** Each registry value is the old one, the one of `v`, or the one of `previous`. */
  predicate PolicyAmong(d: Disk, before: Disk, v: Vault, previous: Option<Vault>) {
    && (d.sidList == before.sidList || d.sidList == ListOf(v)
         || (previous.Some? && d.sidList == ListOf(previous.value)))
    && (d.filterFlag == before.filterFlag || d.filterFlag == FlagOf(v)
         || (previous.Some? && d.filterFlag == FlagOf(previous.value)))
  }

  /** The primary is the old one, `v`, or a copy of the backup. */
  predicate PrimaryAmong(d: Disk, before: Disk, v: Vault, previous: Option<Vault>) {
    d.primary == before.primary || d.primary == Sealed(v) || (previous.Some? && d.primary == d.backup)
  }

  lemma LoadOfSealed(d: Disk, v: Vault, valid: Vault -> bool)
    requires d.primary == Sealed(v) && valid(v)
    ensures LoadDisk(d, valid) == Success(v)
  {
  }

  /** The states of an undisturbed replacement. */
  function Replaced(d: Disk, v: Vault): Disk {
    d.(primary := Sealed(v), temporary := Absent)
  }

  function EnforcingPath(d: Disk, v: Vault): seq<Disk> {
    [ListWritten(d, v), BothWritten(d, v), Replaced(BothWritten(d, v), v)]
  }

  function PathOf(d: Disk, v: Vault): seq<Disk> {
    if AnyEnforced(v.accounts) then EnforcingPath(d, v) else RelaxingPath(d, v)
  }

  function RelaxingPath(d: Disk, v: Vault): seq<Disk> {
    [Replaced(d, v), ListWritten(Replaced(d, v), v), BothWritten(Replaced(d, v), v)]
  }

  /** The fields a policy reader sees. */
  predicate SamePolicy(d: Disk, e: Disk) {
    d.sidList == e.sidList && d.filterFlag == e.filterFlag
  }

  function VaultOf(r: Result<Vault, nat>): Option<Vault> {
    if r.Success? then Some(r.value) else None
  }

  /** The loop of SynchronizeEnforcedRegistry over the accounts. */
  method PrintEnforced(accounts: seq<AccountRecord>) returns (multi: string, enforcedCount: nat)
    ensures multi == MultiString.Print(EnforcedSids(accounts))
    ensures enforcedCount > 0 <==> AnyEnforced(accounts)
  {
    multi, enforcedCount := "", 0;
    for k := 0 to |accounts|
      invariant multi + MultiString.Terminated(EnforcedSids(accounts[k..]))
        == MultiString.Terminated(EnforcedSids(accounts))
      invariant enforcedCount > 0 <==> exists i :: 0 <= i < k && accounts[i].enforced
      invariant multi == "" <==> enforcedCount == 0
    {
      assert accounts[k..][1..] == accounts[k + 1..];
      if accounts[k].enforced {
        var rest := EnforcedSids(accounts[k + 1..]);
        assert EnforcedSids(accounts[k..]) == [accounts[k].sid] + rest;
        var tail := MultiString.Terminated(rest);
        assert multi + accounts[k].sid + [NUL] + tail == multi + (accounts[k].sid + [NUL] + tail);
        multi := multi + accounts[k].sid + [NUL];
        enforcedCount := enforcedCount + 1;
      } else {
        assert EnforcedSids(accounts[k..]) == EnforcedSids(accounts[k + 1..]);
      }
    }
    NoneEnforced(accounts);
    multi := multi + [NUL];
    if |multi| == 1 {
      multi := multi + [NUL];
    }
  }

  lemma {:induction false} NoneEnforced(accounts: seq<AccountRecord>)
    ensures EnforcedSids(accounts) == [] <==> !AnyEnforced(accounts)
  {
    if accounts != [] {
      NoneEnforced(accounts[1..]);
      forall i | 0 <= i < |accounts[1..]|
        ensures accounts[1..][i] == accounts[i + 1]
      {
      }
    }
  }
}
