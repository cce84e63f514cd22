/** Packing logon structures for LSA: a fixed header whose strings are given by
    offsets into the buffer that follows it, and the in-place unpacker that
    turns the offsets back into addresses. Sizes are those of the x64 structures. */
module LogonPacking {
  import opened Basics

  type Bytes = seq<bv8>
  type WString = seq<bv16>

  const SIZEOF_UNLOCK_LOGON := 64
  const SIZEOF_CHANGE_PASSWORD := 80
  const USHORT_LIMIT := 0x1_0000
  const DWORD_LIMIT := 0x1_0000_0000
  const ADDRESS_LIMIT := 0x1_0000_0000_0000_0000

  /** Lengths in octets; `buffer` is an address, or an offset when packed. */
  datatype UnicodeString = UnicodeString(length: nat, maximumLength: nat, buffer: nat)

  // ----- Strings in memory -----

  function Low(c: bv16): bv8 { (c & 0xff) as bv8 }
  function High(c: bv16): bv8 { (c >> 8) as bv8 }
  function Join(low: bv8, high: bv8): bv16 { (high as bv16 << 8) | low as bv16 }

  /** UTF-16 code units as little-endian octets. */
  function Octets(s: WString): (b: Bytes)
    ensures |b| == 2 * |s|
  {
    if s == [] then [] else [Low(s[0]), High(s[0])] + Octets(s[1..])
  }

  function Units(b: Bytes): WString {
    if |b| < 2 then [] else [Join(b[0], b[1])] + Units(b[2..])
  }

  lemma {:induction false} UnitsInvertOctets(s: WString)
    ensures Units(Octets(s)) == s
  {
    if s != [] {
      UnitsInvertOctets(s[1..]);
      assert Octets(s)[2..] == Octets(s[1..]);
    }
  }

  /** Every code unit stands with its low octet first. */
  lemma {:induction false} OctetsAreLittleEndian(s: WString, i: nat)
    requires i < |s|
    ensures Octets(s)[2 * i] == (s[i] & 0xff) as bv8 && Octets(s)[2 * i + 1] == (s[i] >> 8) as bv8
  {
    if i > 0 {
      OctetsAreLittleEndian(s[1..], i - 1);
      assert Octets(s)[2 * i] == Octets(s[1..])[2 * (i - 1)];
      assert Octets(s)[2 * i + 1] == Octets(s[1..])[2 * (i - 1) + 1];
    }
  }

  /** helpers.cpp, UnicodeStringInitWithString: the octet count must fit a USHORT. */
  function UnicodeStringInitWithString(s: WString, address: nat): Option<UnicodeString> {
    if |s| >= USHORT_LIMIT || |s| * 2 >= USHORT_LIMIT then None
    else Some(UnicodeString(2 * |s|, 2 * |s|, address))
  }

  predicate Accepted(s: WString) {
    UnicodeStringInitWithString(s, 0).Some?
  }

  lemma AcceptedLength(s: WString)
    ensures Accepted(s) <==> |s| <= 32767
  {
  }

  function Described(s: WString, offset: nat): UnicodeString { UnicodeString(2 * |s|, 2 * |s|, offset) }

  predicate Inside(header: nat, size: nat, s: UnicodeString) {
    header <= s.buffer && s.buffer + s.length <= header + size
  }

  /** The octets of the string area a structure describes. */
  function Region(header: nat, area: Bytes, s: UnicodeString): Bytes
    requires Inside(header, |area|, s)
  {
    area[s.buffer - header..s.buffer - header + s.length]
  }

  lemma OneRegion(h: nat, before: Bytes, x: Bytes, after: Bytes, area: Bytes)
    requires area == before + x + after
    ensures Region(h, area, UnicodeString(|x|, |x|, h + |before|)) == x
  {
  }

  lemma FourRegions(h: nat, a: Bytes, b: Bytes, c: Bytes, d: Bytes)
    ensures
      var area := a + b + c + d;
      && Region(h, area, UnicodeString(|a|, |a|, h)) == a
      && Region(h, area, UnicodeString(|b|, |b|, h + |a|)) == b
      && Region(h, area, UnicodeString(|c|, |c|, h + |a| + |b|)) == c
      && Region(h, area, UnicodeString(|d|, |d|, h + |a| + |b| + |c|)) == d
  {
    var area := a + b + c + d;
    assert area == [] + a + (b + c + d);
    OneRegion(h, [], a, b + c + d, area);
    assert area == a + b + (c + d);
    OneRegion(h, a, b, c + d, area);
    OneRegion(h, a + b, c, d, area);
    assert area == a + b + c + d + [];
    OneRegion(h, a + b + c, d, [], area);
  }

  // ----- The interactive logon structure -----

  /** The value of a packed or unpacked structure: header fields and string area. */
  datatype LogonImage = LogonImage(
    messageType: int,
    domain: UnicodeString,
    user: UnicodeString,
    password: UnicodeString,
    logonId: int,
    area: Bytes)

  /** The strings lie one behind the other, directly behind the header. */
  function PackedLogon(messageType: int, domain: WString, user: WString, password: WString): LogonImage {
    LogonImage(
      messageType,
      Described(domain, SIZEOF_UNLOCK_LOGON),
      Described(user, SIZEOF_UNLOCK_LOGON + 2 * |domain|),
      Described(password, SIZEOF_UNLOCK_LOGON + 2 * |domain| + 2 * |user|),
      0,
      Octets(domain) + Octets(user) + Octets(password))
  }

  /** A sum of addresses, wrapping at 64 bits. */
  function AddPointer(a: nat, b: nat): nat {
    if a + b < ADDRESS_LIMIT then a + b else a + b - ADDRESS_LIMIT
  }

  predicate InRange(s: UnicodeString, cb: nat) {
    AddPointer(s.buffer, s.maximumLength) <= cb
  }

  function Rebased(s: UnicodeString, base: nat): UnicodeString {
    s.(buffer := if s.buffer != 0 then AddPointer(base, s.buffer) else 0)
  }

  /** helpers.cpp, KerbInteractiveUnlockLogonUnpackInPlace, at address `base`. */
  function Unpacked(image: LogonImage, cb: nat, base: nat): LogonImage {
    if SIZEOF_UNLOCK_LOGON <= cb && InRange(image.domain, cb) && InRange(image.user, cb) && InRange(image.password, cb)
    then image.(domain := Rebased(image.domain, base), user := Rebased(image.user, base),
                password := Rebased(image.password, base))
    else image
  }

  /** What a 64-bit machine computes: a string is moved, unless it is null. */
  predicate IsMoved(before: UnicodeString, after: UnicodeString, base: nat) {
    && after.length == before.length && after.maximumLength == before.maximumLength
    && after.buffer == if before.buffer == 0 then 0 else (base + before.buffer) % ADDRESS_LIMIT
  }

  /** The unpacker moves all three strings when the header fits and every string
      ends within `cb`, in sums of 64 bits, and otherwise nothing. */
  lemma UnpackIff(image: LogonImage, cb: nat, base: nat)
    requires image.domain.buffer < ADDRESS_LIMIT && image.domain.maximumLength < USHORT_LIMIT
    requires image.user.buffer < ADDRESS_LIMIT && image.user.maximumLength < USHORT_LIMIT
    requires image.password.buffer < ADDRESS_LIMIT && image.password.maximumLength < USHORT_LIMIT
    requires base < ADDRESS_LIMIT
    ensures
      var after := Unpacked(image, cb, base);
      && after == image.(domain := after.domain, user := after.user, password := after.password)
      && if && cb >= 64
            && (image.domain.buffer + image.domain.maximumLength) % ADDRESS_LIMIT <= cb
            && (image.user.buffer + image.user.maximumLength) % ADDRESS_LIMIT <= cb
            && (image.password.buffer + image.password.maximumLength) % ADDRESS_LIMIT <= cb
         then && IsMoved(image.domain, after.domain, base) && IsMoved(image.user, after.user, base)
              && IsMoved(image.password, after.password, base)
         else after == image
  {
    SumWraps(image.domain.buffer, image.domain.maximumLength);
    SumWraps(image.user.buffer, image.user.maximumLength);
    SumWraps(image.password.buffer, image.password.maximumLength);
    SumWraps(base, image.domain.buffer);
    SumWraps(base, image.user.buffer);
    SumWraps(base, image.password.buffer);
  }

  lemma SumWraps(a: nat, b: nat)
    requires a < ADDRESS_LIMIT && b < ADDRESS_LIMIT
    ensures AddPointer(a, b) == (a + b) % ADDRESS_LIMIT
  {
  }

  class LogonBlock {
    var messageType: int
    var domain: UnicodeString
    var user: UnicodeString
    var password: UnicodeString
    var logonId: int
    const memory: array<bv8>

    constructor (cb: nat)
      ensures fresh(memory) && memory.Length == cb
    {
      memory := new bv8[cb];
      messageType, logonId := 0, 0;
      domain, user, password := UnicodeString(0, 0, 0), UnicodeString(0, 0, 0), UnicodeString(0, 0, 0);
    }

    ghost function Image(): LogonImage
      reads this, memory
      requires memory.Length >= SIZEOF_UNLOCK_LOGON
    {
      LogonImage(messageType, domain, user, password, logonId, memory[SIZEOF_UNLOCK_LOGON..])
    }

    /** Copies the strings one behind the other and describes them by offsets. */
    method Fill(messageType: int, domain: WString, user: WString, password: WString)
      requires memory.Length == SIZEOF_UNLOCK_LOGON + 2 * |domain| + 2 * |user| + 2 * |password|
      modifies this, memory
      ensures Image() == PackedLogon(messageType, domain, user, password)
    {
      logonId := 0;
      this.messageType := messageType;
      var pbBuffer := SIZEOF_UNLOCK_LOGON;
      this.domain := PackString(memory, SIZEOF_UNLOCK_LOGON, pbBuffer, domain);
      pbBuffer := pbBuffer + this.domain.length;
      assert memory[SIZEOF_UNLOCK_LOGON..pbBuffer] == Octets(domain);
      this.user := PackString(memory, SIZEOF_UNLOCK_LOGON, pbBuffer, user);
      pbBuffer := pbBuffer + this.user.length;
      this.password := PackString(memory, SIZEOF_UNLOCK_LOGON, pbBuffer, password);
      WholeArea(memory[..], SIZEOF_UNLOCK_LOGON);
    }

    method KerbInteractiveUnlockLogonUnpackInPlace(cb: nat, base: nat)
      requires memory.Length >= SIZEOF_UNLOCK_LOGON
      modifies this`domain, this`user, this`password
      ensures Image() == Unpacked(old(Image()), cb, base)
    {
      if SIZEOF_UNLOCK_LOGON <= cb {
        if InRange(domain, cb) && InRange(user, cb) && InRange(password, cb) {
          domain := Rebased(domain, base);
          user := Rebased(user, base);
          password := Rebased(password, base);
        }
      }
    }
  }

  method CopyMemory(memory: array<bv8>, at: nat, source: Bytes)
    requires at + |source| <= memory.Length
    modifies memory
    ensures memory[..] == old(memory[..at]) + source + old(memory[at + |source|..])
  {
    for i := 0 to |source|
      invariant memory[..at] == old(memory[..at])
      invariant memory[at..at + i] == source[..i]
      invariant memory[at + i..] == old(memory[at + i..])
    {
      memory[at + i] := source[i];
    }
  }

  /** _UnicodeStringPackedUnicodeStringCopy and the fix-up that follows it: the
      string is copied at the buffer pointer and described by its offset. The
      area from `header` up to the pointer grows by the string. */
  method PackString(memory: array<bv8>, ghost header: nat, pbBuffer: nat, s: WString) returns (packed: UnicodeString)
    requires header <= pbBuffer && pbBuffer + 2 * |s| <= memory.Length
    modifies memory
    ensures packed == UnicodeString(2 * |s|, 2 * |s|, pbBuffer)
    ensures memory[header..pbBuffer + 2 * |s|] == old(memory[header..pbBuffer]) + Octets(s)
    ensures memory[..header] == old(memory[..header])
  {
    CopyMemory(memory, pbBuffer, Octets(s));
    packed := UnicodeString(2 * |s|, 2 * |s|, pbBuffer);
  }

  /** helpers.cpp, KerbInteractiveUnlockLogonPack; the size is a DWORD sum. */
  method KerbInteractiveUnlockLogonPack(messageType: int, domain: WString, user: WString, password: WString,
                                        memoryOk: bool)
    returns (block: LogonBlock?, cb: nat)
    requires Accepted(domain) && Accepted(user) && Accepted(password)
    ensures block != null <==> memoryOk
    ensures block != null ==>
      && fresh(block) && fresh(block.memory)
      && cb == block.memory.Length == SIZEOF_UNLOCK_LOGON + 2 * |domain| + 2 * |user| + 2 * |password|
      && block.Image() == PackedLogon(messageType, domain, user, password)
  {
    AcceptedLength(domain);
    AcceptedLength(user);
    AcceptedLength(password);
    cb := (SIZEOF_UNLOCK_LOGON + 2 * |domain| + 2 * |user| + 2 * |password|) % DWORD_LIMIT;
    if !memoryOk {
      return null, cb;
    }
    var out := new LogonBlock(cb);
    out.Fill(messageType, domain, user, password);
    block := out;
  }

  lemma WholeArea(memory: Bytes, header: nat)
    requires header <= |memory|
    ensures memory[header..|memory|] == memory[header..]
  {
  }

  /** A packed structure fills its buffer exactly: three adjacent regions behind
      the header, of a size that fits a DWORD; each holds its string. */
  lemma PackedLogonTiles(messageType: int, domain: WString, user: WString, password: WString)
    requires Accepted(domain) && Accepted(user) && Accepted(password)
    ensures
      var packed := PackedLogon(messageType, domain, user, password);
      var cb := SIZEOF_UNLOCK_LOGON + |packed.area|;
      && cb < DWORD_LIMIT && packed.messageType == messageType && packed.logonId == 0
      && packed.domain.maximumLength == packed.domain.length && packed.user.maximumLength == packed.user.length
      && packed.password.maximumLength == packed.password.length
      && SIZEOF_UNLOCK_LOGON == packed.domain.buffer
      && packed.domain.buffer + packed.domain.length == packed.user.buffer
      && packed.user.buffer + packed.user.length == packed.password.buffer
      && packed.password.buffer + packed.password.length == cb
      && Region(SIZEOF_UNLOCK_LOGON, packed.area, packed.domain) == Octets(domain)
      && Region(SIZEOF_UNLOCK_LOGON, packed.area, packed.user) == Octets(user)
      && Region(SIZEOF_UNLOCK_LOGON, packed.area, packed.password) == Octets(password)
  {
    AcceptedLength(domain);
    AcceptedLength(user);
    AcceptedLength(password);
    FourRegions(SIZEOF_UNLOCK_LOGON, Octets(domain), Octets(user), Octets(password), []);
    assert PackedLogon(messageType, domain, user, password).area + []
      == PackedLogon(messageType, domain, user, password).area;
  }

  function Moved(s: UnicodeString, base: nat): UnicodeString { s.(buffer := base + s.buffer) }

  /** A reader sees a string at an address inside the structure at `base`. */
  predicate Reads(area: Bytes, base: nat, s: UnicodeString, text: WString) {
    Inside(base + SIZEOF_UNLOCK_LOGON, |area|, s) && Units(Region(base + SIZEOF_UNLOCK_LOGON, area, s)) == text
  }

  /** Unpacking a packed structure always passes the range check, and a reader
      then finds the three strings at the three addresses. */
  lemma UnpackInvertsPack(messageType: int, domain: WString, user: WString, password: WString, base: nat)
    requires Accepted(domain) && Accepted(user) && Accepted(password)
    requires base + SIZEOF_UNLOCK_LOGON + |PackedLogon(messageType, domain, user, password).area| < ADDRESS_LIMIT
    ensures
      var packed := PackedLogon(messageType, domain, user, password);
      var image := Unpacked(packed, SIZEOF_UNLOCK_LOGON + |packed.area|, base);
      && image == packed.(domain := Moved(packed.domain, base),
                          user := Moved(packed.user, base),
                          password := Moved(packed.password, base))
      && Reads(image.area, base, image.domain, domain)
      && Reads(image.area, base, image.user, user)
      && Reads(image.area, base, image.password, password)
  {
    var packed := PackedLogon(messageType, domain, user, password);
    PackedLogonTiles(messageType, domain, user, password);
    MovedStringReads(packed.area, packed.domain, domain, base);
    MovedStringReads(packed.area, packed.user, user, base);
    MovedStringReads(packed.area, packed.password, password, base);
  }

  lemma MovedStringReads(area: Bytes, s: UnicodeString, text: WString, base: nat)
    requires Inside(SIZEOF_UNLOCK_LOGON, |area|, s) && s.maximumLength == s.length
    requires Region(SIZEOF_UNLOCK_LOGON, area, s) == Octets(text)
    requires base + SIZEOF_UNLOCK_LOGON + |area| < ADDRESS_LIMIT
    ensures InRange(s, SIZEOF_UNLOCK_LOGON + |area|)
    ensures Rebased(s, base) == Moved(s, base)
    ensures Reads(area, base, Moved(s, base), text)
  {
    UnitsInvertOctets(text);
    assert Region(base + SIZEOF_UNLOCK_LOGON, area, Moved(s, base)) == Region(SIZEOF_UNLOCK_LOGON, area, s);
  }

  // ----- The change-password request -----

  /** The fields that KerbChangePasswordPack fills in. */
  datatype ChangeImage = ChangeImage(
    messageType: int,
    domain: UnicodeString,
    account: UnicodeString,
    oldPassword: UnicodeString,
    newPassword: UnicodeString,
    area: Bytes)

  function PackedChange(messageType: int, domain: WString, account: WString, oldPassword: WString,
                        newPassword: WString): ChangeImage {
    ChangeImage(
      messageType,
      Described(domain, SIZEOF_CHANGE_PASSWORD),
      Described(account, SIZEOF_CHANGE_PASSWORD + 2 * |domain|),
      Described(oldPassword, SIZEOF_CHANGE_PASSWORD + 2 * |domain| + 2 * |account|),
      Described(newPassword, SIZEOF_CHANGE_PASSWORD + 2 * |domain| + 2 * |account| + 2 * |oldPassword|),
      Octets(domain) + Octets(account) + Octets(oldPassword) + Octets(newPassword))
  }

  class ChangeBlock {
    var messageType: int
    var domain: UnicodeString
    var account: UnicodeString
    var oldPassword: UnicodeString
    var newPassword: UnicodeString
    var impersonating: bool
    const memory: array<bv8>

    /** CoTaskMemAlloc: nothing is initialized. */
    constructor (cb: nat)
      ensures fresh(memory) && memory.Length == cb
    {
      memory := new bv8[cb];
      messageType, impersonating := *, *;
      domain, account, oldPassword, newPassword := *, *, *, *;
    }

    method FillNames(domain: WString, account: WString) returns (pbBuffer: nat)
      requires memory.Length >= SIZEOF_CHANGE_PASSWORD + 2 * |domain| + 2 * |account|
      modifies `domain, `account, memory
      ensures pbBuffer == SIZEOF_CHANGE_PASSWORD + 2 * |domain| + 2 * |account|
      ensures this.domain == Described(domain, SIZEOF_CHANGE_PASSWORD)
      ensures this.account == Described(account, SIZEOF_CHANGE_PASSWORD + 2 * |domain|)
      ensures memory[SIZEOF_CHANGE_PASSWORD..pbBuffer] == Octets(domain) + Octets(account)
    {
      pbBuffer := SIZEOF_CHANGE_PASSWORD;
      this.domain := PackString(memory, SIZEOF_CHANGE_PASSWORD, pbBuffer, domain);
      pbBuffer := pbBuffer + this.domain.length;
      assert memory[SIZEOF_CHANGE_PASSWORD..pbBuffer] == Octets(domain);
      this.account := PackString(memory, SIZEOF_CHANGE_PASSWORD, pbBuffer, account);
      pbBuffer := pbBuffer + this.account.length;
    }

    method FillPasswords(start: nat, oldPassword: WString, newPassword: WString)
      requires SIZEOF_CHANGE_PASSWORD <= start && start + 2 * |oldPassword| + 2 * |newPassword| <= memory.Length
      modifies `oldPassword, `newPassword, memory
      ensures this.oldPassword == Described(oldPassword, start)
      ensures this.newPassword == Described(newPassword, start + 2 * |oldPassword|)
      ensures memory[SIZEOF_CHANGE_PASSWORD..start + 2 * |oldPassword| + 2 * |newPassword|]
        == old(memory[SIZEOF_CHANGE_PASSWORD..start]) + Octets(oldPassword) + Octets(newPassword)
    {
      var pbBuffer := start;
      this.oldPassword := PackString(memory, SIZEOF_CHANGE_PASSWORD, pbBuffer, oldPassword);
      pbBuffer := pbBuffer + this.oldPassword.length;
      this.newPassword := PackString(memory, SIZEOF_CHANGE_PASSWORD, pbBuffer, newPassword);
    }

    method Fill(messageType: int, domain: WString, account: WString, oldPassword: WString, newPassword: WString)
      requires memory.Length
        == SIZEOF_CHANGE_PASSWORD + 2 * |domain| + 2 * |account| + 2 * |oldPassword| + 2 * |newPassword|
      modifies this, memory
      ensures Image() == PackedChange(messageType, domain, account, oldPassword, newPassword)
    {
      this.messageType := messageType;
      var pbBuffer := FillNames(domain, account);
      FillPasswords(pbBuffer, oldPassword, newPassword);
      WholeArea(memory[..], SIZEOF_CHANGE_PASSWORD);
    }

    ghost function Image(): ChangeImage
      reads this, memory
      requires memory.Length >= SIZEOF_CHANGE_PASSWORD
    {
      ChangeImage(messageType, domain, account, oldPassword, newPassword, memory[SIZEOF_CHANGE_PASSWORD..])
    }
  }

  /** helpers.cpp, KerbChangePasswordPack: Impersonating is not copied. */
  method KerbChangePasswordPack(messageType: int, domain: WString, account: WString, oldPassword: WString,
                                newPassword: WString, memoryOk: bool)
    returns (block: ChangeBlock?, cb: nat)
    requires Accepted(domain) && Accepted(account) && Accepted(oldPassword) && Accepted(newPassword)
    ensures block != null <==> memoryOk
    ensures block != null ==>
      && fresh(block) && fresh(block.memory)
      && cb == block.memory.Length
      && cb == SIZEOF_CHANGE_PASSWORD + 2 * |domain| + 2 * |account| + 2 * |oldPassword| + 2 * |newPassword|
      && block.Image() == PackedChange(messageType, domain, account, oldPassword, newPassword)
  {
    AcceptedLength(domain);
    AcceptedLength(account);
    AcceptedLength(oldPassword);
    AcceptedLength(newPassword);
    cb := (SIZEOF_CHANGE_PASSWORD + 2 * |domain| + 2 * |account| + 2 * |oldPassword| + 2 * |newPassword|) % DWORD_LIMIT;
    if !memoryOk {
      return null, cb;
    }
    var out := new ChangeBlock(cb);
    out.Fill(messageType, domain, account, oldPassword, newPassword);
    block := out;
  }

  /** The four strings tile the buffer behind the header, whose size fits a DWORD. */
  lemma PackedChangeTiles(messageType: int, domain: WString, account: WString, oldPassword: WString,
                          newPassword: WString)
    requires Accepted(domain) && Accepted(account) && Accepted(oldPassword) && Accepted(newPassword)
    ensures
      var image := PackedChange(messageType, domain, account, oldPassword, newPassword);
      var cb := SIZEOF_CHANGE_PASSWORD + |image.area|;
      && cb < DWORD_LIMIT && image.messageType == messageType
      && image.domain.maximumLength == image.domain.length && image.account.maximumLength == image.account.length
      && image.oldPassword.maximumLength == image.oldPassword.length
      && image.newPassword.maximumLength == image.newPassword.length
      && SIZEOF_CHANGE_PASSWORD == image.domain.buffer
      && image.domain.buffer + image.domain.length == image.account.buffer
      && image.account.buffer + image.account.length == image.oldPassword.buffer
      && image.oldPassword.buffer + image.oldPassword.length == image.newPassword.buffer
      && image.newPassword.buffer + image.newPassword.length == cb
  {
    AcceptedLength(domain);
    AcceptedLength(account);
    AcceptedLength(oldPassword);
    AcceptedLength(newPassword);
  }

  /** Each offset of the request leads back to its string. */
  lemma PackedChangeReadsBack(messageType: int, domain: WString, account: WString, oldPassword: WString,
                              newPassword: WString)
    ensures
      var image := PackedChange(messageType, domain, account, oldPassword, newPassword);
      && Units(Region(SIZEOF_CHANGE_PASSWORD, image.area, image.domain)) == domain
      && Units(Region(SIZEOF_CHANGE_PASSWORD, image.area, image.account)) == account
      && Units(Region(SIZEOF_CHANGE_PASSWORD, image.area, image.oldPassword)) == oldPassword
      && Units(Region(SIZEOF_CHANGE_PASSWORD, image.area, image.newPassword)) == newPassword
  {
    FourRegions(SIZEOF_CHANGE_PASSWORD, Octets(domain), Octets(account), Octets(oldPassword), Octets(newPassword));
    UnitsInvertOctets(domain);
    UnitsInvertOctets(account);
    UnitsInvertOctets(oldPassword);
    UnitsInvertOctets(newPassword);
  }
}
