/** The logon tile: what each LogonUI callback does to it, and what it hands to
    the LSA. The strings shown by LogonUI, which mirror the stored values, are not
    part of the model. */
module CredentialTile {
  import opened Basics

  datatype Mode = UsernamePassword | Fido | ChangePassword

  datatype LocalAccount = LocalAccount(name: string, computer: string, sid: Sid)

  /** The Broker's reply to a request to begin. */
  datatype Challenge = Challenge(enforced: bool, sessionId: string)

  datatype Device = Device(hasPin: bool)

  datatype Tile = Tile(
    userSid: Sid,
    retired: bool,
    mode: Mode,
    username: string,
    domain: string,
    password: string,
    pin: string,
    newPassword1: string,
    newPassword2: string,
    sid: Sid,
    challenge: Option<Challenge>,
    devices: seq<Device>,
    selected: Option<nat>,
    mfaComplete: bool,
    changeAuthorized: bool)

  /** What a Connect meets: whether the user cancels at each of the five points
      where that is asked, the Broker's answers, the registry, the devices, and which
      of them sign with a PIN. */
  datatype Surroundings = Surroundings(
    stops: nat -> bool,
    begin: Sid -> Option<Challenge>,
    listed: Sid -> bool,
    devices: seq<Device>,
    touched: Option<nat>,
    signs: (nat, string) -> bool,
    finish: string -> bool)

  /** A successful touch selection names a device (TouchSelection). */
  type Env = e: Surroundings | e.touched.Some? ==> e.touched.value < |e.devices|
    witness Surroundings(_ => false, _ => None, _ => false, [], None, (_, _) => false, _ => false)

  datatype Outcome = Ok | Unexpected | Cancelled | AccessDenied | InvalidArgument | NoSuchAccount | NoDevice

  datatype Field = UsernameField | PasswordField | PinField | NewPassword1Field | NewPassword2Field | OtherField

  datatype NtStatus = StatusSuccess | PasswordMustChange | PasswordExpired | WrongPassword | OtherStatus

  /** What GetSerialization hands over. */
  datatype Blob =
    | NotFinished
    | Logon(domain: string, username: string, password: string)
    | Change(domain: string, username: string, oldPassword: string, newPassword: string)

  // ----- The specification -----

  /** CCredential::Initialize. */
  function Fresh(username: string, domain: string, password: string, userSid: Sid): Tile {
    Tile(userSid, false, UsernamePassword, username, domain, password, "", "", "", "", None, [], None, false, false)
  }

  function ResetMfa(t: Tile): Tile {
    t.(mfaComplete := false, challenge := None, devices := [], selected := None, pin := "")
  }

  function ClearSecrets(t: Tile): Tile {
    t.(password := "", pin := "", newPassword1 := "", newPassword2 := "")
  }

  function FullReset(t: Tile): Tile {
    ClearSecrets(ResetMfa(t)).(changeAuthorized := false, sid := "", mode := UsernamePassword)
  }

  function Abandon(t: Tile): Tile {
    ResetMfa(t).(mode := UsernamePassword)
  }

  function AfterSetString(t: Tile, field: Field, value: string): (Tile, Outcome) {
    if t.retired then (t, Unexpected)
    else
      match field
      case UsernameField =>
        if t.userSid != "" then (t, AccessDenied)
        else ((if t.username != value then FullReset(t) else t).(username := value), Ok)
      case PasswordField => (t.(password := value), Ok)
      case PinField => (t.(pin := value), Ok)
      case NewPassword1Field => (t.(newPassword1 := value), Ok)
      case NewPassword2Field => (t.(newPassword2 := value), Ok)
      case OtherField => (t, InvalidArgument)
  }

  /** Connect once there is a challenge: the chosen device, if any, signs it. */
  function AfterVerify(t: Tile, env: Env): (Tile, Outcome) {
    if t.challenge.None? || t.selected.None? || t.selected.value >= |t.devices| then (Abandon(t), AccessDenied)
    else if env.stops(3) then (FullReset(t), Cancelled)
    else if !env.signs(t.selected.value, t.pin) || !env.finish(t.challenge.value.sessionId) then
      (Abandon(t), AccessDenied)
    else if env.stops(4) then (FullReset(t), Cancelled)
    else (t.(pin := "", mfaComplete := true, challenge := None), Ok)
  }

  /** Connect once the Broker demands a key. */
  function AfterChallenge(t: Tile, env: Env): (Tile, Outcome) {
    if env.devices == [] then (ResetMfa(t), NoDevice)
    else if |env.devices| > 1 && env.stops(2) then (FullReset(t), Cancelled)
    else if |env.devices| > 1 && env.touched.None? then (Abandon(t), AccessDenied)
    else
      var k := if |env.devices| > 1 then env.touched.value else 0;
      var chosen := t.(devices := env.devices, selected := Some(k));
      if env.devices[k].hasPin then (chosen.(mode := Fido), Ok) else AfterVerify(chosen, env)
  }

  /** Connect without a challenge at hand. */
  function AfterBegin(t: Tile, env: Env, resolve: string -> Option<LocalAccount>): (Tile, Outcome) {
    var account := resolve(t.username);
    if account.None? then (t, NoSuchAccount)
    else if t.userSid != "" && !SameText(account.value.sid, t.userSid) then (FullReset(t), AccessDenied)
    else
      var named := t.(username := account.value.name, domain := account.value.computer, sid := account.value.sid);
      AfterAsking(named, env)
  }

  /** The Broker is asked about the account that the tile names. */
  function AfterAsking(t: Tile, env: Env): (Tile, Outcome) {
    var reply := env.begin(t.sid);
    if reply.None? then (t, AccessDenied)
    else if env.stops(1) then (FullReset(t), Cancelled)
    else if reply.value.enforced then AfterChallenge(t.(challenge := reply), env)
    else if env.listed(t.sid) then (t, AccessDenied)
    else (t.(mfaComplete := true), Ok)
  }

  function AfterConnect(t: Tile, env: Env, resolve: string -> Option<LocalAccount>): (Tile, Outcome) {
    if t.retired then (t, Unexpected)
    else if env.stops(0) then (FullReset(t), Cancelled)
    else if t.mode == ChangePassword then (t, if t.changeAuthorized then Ok else AccessDenied)
    else if t.username == "" || t.password == "" then (t, InvalidArgument)
    else if t.challenge.None? then AfterBegin(t, env, resolve)
    else AfterVerify(t, env)
  }

  // ----- What a Connect asks of the Broker -----

  /** A Connect that gets as far as the ceremony. */
  predicate Proceeds(t: Tile, env: Env) {
    !t.retired && !env.stops(0) && t.mode != ChangePassword && t.username != "" && t.password != ""
  }

  /** The session for which the chosen device signs. */
  function VerifySubmits(t: Tile, env: Env): Option<string> {
    if t.challenge.None? || t.selected.None? || t.selected.value >= |t.devices| || env.stops(3) then None
    else if !env.signs(t.selected.value, t.pin) then None
    else Some(t.challenge.value.sessionId)
  }

  function ChallengeSubmits(t: Tile, env: Env): Option<string> {
    if env.devices == [] || (|env.devices| > 1 && (env.stops(2) || env.touched.None?)) then None
    else
      var k := if |env.devices| > 1 then env.touched.value else 0;
      if env.devices[k].hasPin then None
      else VerifySubmits(t.(devices := env.devices, selected := Some(k)), env)
  }

  function BeginAsks(t: Tile, resolve: string -> Option<LocalAccount>): Option<Sid> {
    var account := resolve(t.username);
    if account.None? || (t.userSid != "" && !SameText(account.value.sid, t.userSid)) then None
    else Some(account.value.sid)
  }

  function BeginSubmits(t: Tile, env: Env, resolve: string -> Option<LocalAccount>): Option<string> {
    var sid := BeginAsks(t, resolve);
    if sid.None? then None else AskingSubmits(t.(sid := sid.value), env)
  }

  function AskingSubmits(t: Tile, env: Env): Option<string> {
    var reply := env.begin(t.sid);
    if reply.None? || env.stops(1) || !reply.value.enforced then None
    else ChallengeSubmits(t.(challenge := reply), env)
  }

  /** The account for which a Connect asks the Broker to begin, if it does. */
  function AskedFor(t: Tile, env: Env, resolve: string -> Option<LocalAccount>): Option<Sid> {
    if !Proceeds(t, env) || t.challenge.Some? then None else BeginAsks(t, resolve)
  }

  /** The session that a Connect asks the Broker to finish, if it does. */
  function Submitted(t: Tile, env: Env, resolve: string -> Option<LocalAccount>): Option<string> {
    if !Proceeds(t, env) then None
    else if t.challenge.None? then BeginSubmits(t, env, resolve)
    else VerifySubmits(t, env)
  }

  /** GetSerialization; `packs` tells whether packing succeeds. */
  function Serialized(t: Tile, packs: bool): Blob {
    if t.retired || !packs then NotFinished
    else if t.mode == ChangePassword then
      if !t.changeAuthorized || t.newPassword1 == "" || t.newPassword1 != t.newPassword2 then NotFinished
      else Change(t.domain, t.username, t.password, t.newPassword1)
    else if t.mfaComplete then Logon(t.domain, t.username, t.password)
    else NotFinished
  }

  predicate DemandsChange(status: NtStatus, substatus: NtStatus) {
    && status != StatusSuccess
    && (status in {PasswordMustChange, PasswordExpired} || substatus in {PasswordMustChange, PasswordExpired})
  }

  function AfterReport(t: Tile, status: NtStatus, substatus: NtStatus): Tile {
    if status == StatusSuccess then ClearSecrets(ResetMfa(t)).(changeAuthorized := false)
    else if DemandsChange(status, substatus) then
      t.(pin := "", changeAuthorized := t.mfaComplete, mfaComplete := false, mode := ChangePassword)
    else ClearSecrets(Abandon(t))
  }

  // ----- The callbacks -----

  class CCredential {
    const userSid: Sid
    var retired: bool
    var mode: Mode
    var username: string
    var domain: string
    var password: string
    var fidoPin: string
    var newPassword1: string
    var newPassword2: string
    var sid: Sid
    var challenge: Option<Challenge>
    var devices: seq<Device>
    var selectedDevice: Option<nat>
    var mfaComplete: bool
    var passwordChangeAuthorized: bool

    constructor (username: string, domain: string, password: string, userSid: Sid)
      ensures Now() == Fresh(username, domain, password, userSid)
    {
      this.userSid := userSid;
      retired, mode := false, UsernamePassword;
      this.username, this.domain, this.password := username, domain, password;
      fidoPin, newPassword1, newPassword2, sid := "", "", "", "";
      challenge, devices, selectedDevice := None, [], None;
      mfaComplete, passwordChangeAuthorized := false, false;
    }

    ghost function Now(): Tile
      reads this
    {
      Tile(userSid, retired, mode, username, domain, password, fidoPin, newPassword1, newPassword2, sid,
           challenge, devices, selectedDevice, mfaComplete, passwordChangeAuthorized)
    }

    method ResetMfaState()
      modifies this
      ensures Now() == ResetMfa(old(Now()))
    {
      mfaComplete := false;
      challenge := None;
      devices := [];
      selectedDevice := None;
      fidoPin := "";
    }

    method ForgetSecrets()
      modifies this
      ensures Now() == ClearSecrets(old(Now()))
    {
      password, fidoPin, newPassword1, newPassword2 := "", "", "", "";
    }

    method Reset()
      modifies this
      ensures Now() == FullReset(old(Now()))
    {
      ResetMfaState();
      passwordChangeAuthorized := false;
      ForgetSecrets();
      sid := "";
      mode := UsernamePassword;
    }

    method AbandonKey()
      modifies this
      ensures Now() == Abandon(old(Now()))
    {
      ResetMfaState();
      mode := UsernamePassword;
    }

    method SetDeselected()
      modifies this
      ensures Now() == FullReset(old(Now()))
    {
      Reset();
    }

    method Disconnect()
      modifies this
      ensures Now() == FullReset(old(Now()))
    {
      Reset();
    }

    method Retire()
      modifies this
      ensures Now() == FullReset(old(Now())).(retired := true)
    {
      retired := true;
      Reset();
    }

    method SetStringValue(field: Field, value: string) returns (outcome: Outcome)
      modifies this
      ensures (Now(), outcome) == AfterSetString(old(Now()), field, value)
    {
      if retired {
        return Unexpected;
      }
      match field {
        case UsernameField =>
          if userSid != "" {
            return AccessDenied;
          }
          if username != value {
            Reset();
          }
          username := value;
        case PasswordField => password := value;
        case PinField => fidoPin := value;
        case NewPassword1Field => newPassword1 := value;
        case NewPassword2Field => newPassword2 := value;
        case OtherField => return InvalidArgument;
      }
      return Ok;
    }

    /** Also yields what the Broker was asked: `asked` to begin, `submitted` to finish. */
    method Connect(env: Env, resolve: string -> Option<LocalAccount>)
      returns (outcome: Outcome, ghost asked: Option<Sid>, ghost submitted: Option<string>)
      modifies this
      ensures (Now(), outcome) == AfterConnect(old(Now()), env, resolve)
      ensures asked == AskedFor(old(Now()), env, resolve) && submitted == Submitted(old(Now()), env, resolve)
    {
      asked, submitted := None, None;
      if retired {
        return Unexpected, asked, submitted;
      }
      if env.stops(0) {
        Reset();
        return Cancelled, asked, submitted;
      }
      if mode == ChangePassword {
        return if passwordChangeAuthorized then Ok else AccessDenied, asked, submitted;
      }
      if username == "" || password == "" {
        return InvalidArgument, asked, submitted;
      }
      if challenge.None? {
        var done;
        done, outcome, asked := BeginCeremony(env, resolve);
        if done {
          return outcome, asked, submitted;
        }
      }
      outcome, submitted := FinishCeremony(env);
    }

    /** The first half of Connect; not `done` when the key can be asked at once. */
    method BeginCeremony(env: Env, resolve: string -> Option<LocalAccount>)
      returns (done: bool, outcome: Outcome, ghost asked: Option<Sid>)
      requires challenge.None?
      modifies this
      ensures asked == BeginAsks(old(Now()), resolve)
      ensures done ==>
        (Now(), outcome) == AfterBegin(old(Now()), env, resolve) && BeginSubmits(old(Now()), env, resolve) == None
      ensures !done ==> AfterVerify(Now(), env) == AfterBegin(old(Now()), env, resolve)
      ensures !done ==> VerifySubmits(Now(), env) == BeginSubmits(old(Now()), env, resolve)
    {
      asked := None;
      var account := resolve(username);
      if account.None? {
        return true, NoSuchAccount, asked;
      }
      if userSid != "" && !SameText(account.value.sid, userSid) {
        Reset();
        return true, AccessDenied, asked;
      }
      username, domain, sid := account.value.name, account.value.computer, account.value.sid;
      asked := Some(sid);
      done, outcome := AskBroker(env);
    }

    method AskBroker(env: Env) returns (done: bool, outcome: Outcome)
      requires challenge.None?
      modifies this
      ensures done ==> (Now(), outcome) == AfterAsking(old(Now()), env) && AskingSubmits(old(Now()), env) == None
      ensures !done ==> AfterVerify(Now(), env) == AfterAsking(old(Now()), env)
      ensures !done ==> VerifySubmits(Now(), env) == AskingSubmits(old(Now()), env)
    {
      var reply := env.begin(sid);
      if reply.None? {
        return true, AccessDenied;
      }
      if env.stops(1) {
        Reset();
        return true, Cancelled;
      }
      if !reply.value.enforced {
        if env.listed(sid) {
          return true, AccessDenied;
        }
        mfaComplete := true;
        return true, Ok;
      }
      challenge := reply;
      done, outcome := ChooseDevice(env);
    }

    method ChooseDevice(env: Env) returns (done: bool, outcome: Outcome)
      modifies this
      ensures done ==> (Now(), outcome) == AfterChallenge(old(Now()), env) && ChallengeSubmits(old(Now()), env) == None
      ensures !done ==> AfterVerify(Now(), env) == AfterChallenge(old(Now()), env)
      ensures !done ==> VerifySubmits(Now(), env) == ChallengeSubmits(old(Now()), env)
    {
      outcome := Ok;
      devices := env.devices;
      if devices == [] {
        ResetMfaState();
        return true, NoDevice;
      }
      if |devices| > 1 {
        if env.stops(2) {
          Reset();
          return true, Cancelled;
        }
        if env.touched.None? {
          AbandonKey();
          return true, AccessDenied;
        }
        selectedDevice := env.touched;
      } else {
        selectedDevice := Some(0);
      }
      if devices[selectedDevice.value].hasPin {
        mode := Fido;
        return true, Ok;
      }
      return false, Ok;
    }

    method FinishCeremony(env: Env) returns (outcome: Outcome, ghost submitted: Option<string>)
      modifies this
      ensures (Now(), outcome) == AfterVerify(old(Now()), env)
      ensures submitted == VerifySubmits(old(Now()), env)
    {
      submitted := None;
      if challenge.None? || selectedDevice.None? || selectedDevice.value >= |devices| {
        AbandonKey();
        return AccessDenied, submitted;
      }
      var pin := fidoPin;
      fidoPin := "";
      if env.stops(3) {
        Reset();
        return Cancelled, submitted;
      }
      if !env.signs(selectedDevice.value, pin) {
        AbandonKey();
        return AccessDenied, submitted;
      }
      submitted := Some(challenge.value.sessionId);
      if !env.finish(challenge.value.sessionId) {
        AbandonKey();
        return AccessDenied, submitted;
      }
      if env.stops(4) {
        Reset();
        return Cancelled, submitted;
      }
      mfaComplete := true;
      challenge := None;
      return Ok, submitted;
    }

    method GetSerialization(packs: bool) returns (blob: Blob)
      ensures blob == Serialized(Now(), packs)
    {
      if retired {
        return NotFinished;
      }
      if mode == ChangePassword {
        if !passwordChangeAuthorized || newPassword1 == "" || newPassword1 != newPassword2 || !packs {
          return NotFinished;
        }
        return Change(domain, username, password, newPassword1);
      }
      if !mfaComplete || !packs {
        return NotFinished;
      }
      return Logon(domain, username, password);
    }

    method ReportResult(status: NtStatus, substatus: NtStatus)
      modifies this
      ensures Now() == AfterReport(old(Now()), status, substatus)
    {
      fidoPin := "";
      if status == StatusSuccess {
        ResetMfaState();
        passwordChangeAuthorized := false;
        ForgetSecrets();
        return;
      }
      if status == PasswordMustChange || status == PasswordExpired || substatus == PasswordMustChange
        || substatus == PasswordExpired {
        passwordChangeAuthorized := mfaComplete;
        mfaComplete := false;
        mode := ChangePassword;
        return;
      }
      AbandonKey();
      ForgetSecrets();
    }
  }
}
