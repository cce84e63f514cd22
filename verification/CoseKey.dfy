/** The ES256 public key inside a decoded COSE map: section 7.1 of RFC 9052 and
    section 7.1.1 of RFC 9053. */
module CoseKey {
  import opened Basics
  import opened Base64

  const COSE_ES256 := -7
  const MAX_PAIRS := 32

  type UInt64 = n: int | 0 <= n < 0x1_0000_0000_0000_0000

  /** A decoded CBOR item, as far as the verifier looks into it. */
  datatype CborItem =
    | UnsignedInt(n: UInt64)
    | NegativeInt(n: UInt64)
    | ByteString(bytes: Bytes)
    | Map(pairs: seq<Pair>)
    | Other

  datatype Pair = Pair(key: CborItem, value: CborItem)

  /** static_cast<int> of a 64-bit integer: the low 32 bits in two's complement. */
  function CastInt(n: UInt64): int {
    var low := n % 0x1_0000_0000;
    if low < 0x8000_0000 then low else low - 0x1_0000_0000
  }

  function NumberOf(item: CborItem): Option<int> {
    match item
    case UnsignedInt(n) => Some(CastInt(n))
    case NegativeInt(n) => Some(-1 - CastInt(n))
    case _ => None
  }

  // ----- What the map must say -----

  datatype Slot = KeyType | Algorithm | Curve | X | Y

  /** The parameter a pair supplies, by its (truncated) key and value type. */
  function SlotOf(p: Pair): Option<Slot> {
    var key := NumberOf(p.key);
    if key == Some(1) && p.value.UnsignedInt? then Some(KeyType)
    else if key == Some(3) && p.value.NegativeInt? then Some(Algorithm)
    else if key == Some(-1) && p.value.UnsignedInt? then Some(Curve)
    else if key == Some(-2) && p.value.ByteString? then Some(X)
    else if key == Some(-3) && p.value.ByteString? then Some(Y)
    else None
  }

  predicate Fits(slot: Slot, value: CborItem) {
    match slot
    case KeyType => NumberOf(value) == Some(2)
    case Algorithm => NumberOf(value) == Some(COSE_ES256)
    case Curve => NumberOf(value) == Some(1)
    case X => value.ByteString? && |value.bytes| == 32
    case Y => value.ByteString? && |value.bytes| == 32
  }

  /** The results of a function on the elements of a sequence, in order. */
  function Gather<A, B>(s: seq<A>, f: A -> seq<B>): seq<B> {
    if s == [] then [] else Gather(s[..|s| - 1], f) + f(s[|s| - 1])
  }

  function Supplied(p: Pair, slot: Slot): seq<CborItem> {
    if SlotOf(p) == Some(slot) then [p.value] else []
  }

  function Supplier(slot: Slot): Pair -> seq<CborItem> { p => Supplied(p, slot) }

  /** The values supplied for a parameter, in map order. */
  function ValuesFor(pairs: seq<Pair>, slot: Slot): seq<CborItem> {
    Gather(pairs, Supplier(slot))
  }

  predicate SuppliedOnce(pairs: seq<Pair>, slot: Slot) {
    |ValuesFor(pairs, slot)| == 1 && Fits(slot, ValuesFor(pairs, slot)[0])
  }

  predicate IsEs256Key(pairs: seq<Pair>) {
    && |pairs| <= MAX_PAIRS
    && SuppliedOnce(pairs, KeyType) && SuppliedOnce(pairs, Algorithm) && SuppliedOnce(pairs, Curve)
    && SuppliedOnce(pairs, X) && SuppliedOnce(pairs, Y)
  }

  /** x followed by y, for a map that supplies each of the five parameters
      exactly once with the required value. */
  function Coordinates(pairs: seq<Pair>): Option<Bytes> {
    if IsEs256Key(pairs) then Some(ValuesFor(pairs, X)[0].bytes + ValuesFor(pairs, Y)[0].bytes) else None
  }

  // ----- The loop -----

  /** The variables of the loop. */
  datatype Found = Found(
    hasKeyType: bool, keyType: int,
    hasAlgorithm: bool, algorithm: int,
    hasCurve: bool, curve: int,
    hasX: bool, x: Bytes,
    hasY: bool, y: Bytes)

  /** They stand for the values supplied so far. */
  ghost predicate Tracks(f: Found, pairs: seq<Pair>) {
    forall slot: Slot :: TracksSlot(f, slot, ValuesFor(pairs, slot))
  }

  predicate TracksSlot(f: Found, slot: Slot, values: seq<CborItem>) {
    match slot
    case KeyType => Seen(values, f.hasKeyType, f.keyType)
    case Algorithm => Seen(values, f.hasAlgorithm, f.algorithm)
    case Curve => Seen(values, f.hasCurve, f.curve)
    case X => SeenBytes(values, f.hasX, f.x)
    case Y => SeenBytes(values, f.hasY, f.y)
  }

  predicate SameElsewhere(f: Found, g: Found, slot: Slot) {
    && (slot != KeyType ==> f.hasKeyType == g.hasKeyType && f.keyType == g.keyType)
    && (slot != Algorithm ==> f.hasAlgorithm == g.hasAlgorithm && f.algorithm == g.algorithm)
    && (slot != Curve ==> f.hasCurve == g.hasCurve && f.curve == g.curve)
    && (slot != X ==> f.hasX == g.hasX && f.x == g.x)
    && (slot != Y ==> f.hasY == g.hasY && f.y == g.y)
  }

  predicate Seen(values: seq<CborItem>, has: bool, number: int) {
    if has then |values| == 1 && NumberOf(values[0]) == Some(number) else values == []
  }

  predicate SeenBytes(values: seq<CborItem>, has: bool, bytes: Bytes) {
    if has then values == [ByteString(bytes)] && |bytes| == 32 else values == []
  }

  lemma GatherOneMore<A, B>(s: seq<A>, index: nat, f: A -> seq<B>)
    requires index < |s|
    ensures Gather(s[..index + 1], f) == Gather(s[..index], f) + f(s[index])
  {
    assert s[..index + 1][..index] == s[..index];
  }

  /** Gathered results are never taken back. */
  lemma {:induction false} GatherGrows<A, B>(s: seq<A>, index: nat, f: A -> seq<B>)
    requires index <= |s|
    ensures Gather(s[..index], f) <= Gather(s, f)
    decreases |s| - index
  {
    if index < |s| {
      GatherOneMore(s, index, f);
      GatherGrows(s, index + 1, f);
    } else {
      assert s[..index] == s;
    }
  }

  lemma GatherLast<A, B>(s: seq<A>, last: A, f: A -> seq<B>)
    ensures multiset(Gather(s + [last], f)) == multiset(Gather(s, f)) + multiset(f(last))
  {
    assert (s + [last])[..|s|] == s;
  }

  lemma WithoutThenLast<A>(s: seq<A>, i: nat)
    requires i < |s| - 1
    ensures s == s[..|s| - 1] + [s[|s| - 1]]
    ensures s[..i] + s[i + 1..] == s[..|s| - 1][..i] + s[..|s| - 1][i + 1..] + [s[|s| - 1]]
  {
  }

  lemma {:induction false} GatherWithout<A, B>(s: seq<A>, i: nat, f: A -> seq<B>)
    requires i < |s|
    ensures multiset(Gather(s, f)) == multiset(Gather(s[..i] + s[i + 1..], f)) + multiset(f(s[i]))
    decreases |s|
  {
    var n := |s| - 1;
    if i < n {
      var shorter := s[..n];
      WithoutThenLast(s, i);
      GatherWithout(shorter, i, f);
      GatherLast(shorter, s[n], f);
      GatherLast(shorter[..i] + shorter[i + 1..], s[n], f);
    } else {
      assert s[..i] + s[i + 1..] == s[..n];
    }
  }

  lemma {:induction false} GatherReordered<A, B>(s: seq<A>, t: seq<A>, f: A -> seq<B>)
    requires multiset(s) == multiset(t)
    ensures multiset(Gather(s, f)) == multiset(Gather(t, f))
    decreases |s|
  {
    SameLength(s, t);
    if s != [] {
      var n := |s| - 1;
      var i := IndexOf(t, s[n]);
      var shorter, rest := s[..n], t[..i] + t[i + 1..];
      WithoutOne(s, n);
      WithoutOne(t, i);
      assert s[..n] + s[n + 1..] == shorter;
      GatherReordered(shorter, rest, f);
      GatherWithout(s, n, f);
      GatherWithout(t, i, f);
    }
  }

  lemma WithoutOne<T>(s: seq<T>, i: nat)
    requires i < |s|
    ensures multiset(s[..i] + s[i + 1..]) == multiset(s) - multiset{s[i]}
  {
    assert s == s[..i] + [s[i]] + s[i + 1..];
  }

  lemma SameLength<T>(s: seq<T>, t: seq<T>)
    requires multiset(s) == multiset(t)
    ensures |s| == |t|
    ensures s != [] ==> s[|s| - 1] in t
  {
    assert |s| == |multiset(s)| && |t| == |multiset(t)|;
    if s != [] { assert s[|s| - 1] in multiset(t); }
  }

  lemma IndexOf<T>(s: seq<T>, x: T) returns (i: nat)
    requires x in s
    ensures i < |s| && s[i] == x
  {
    i :| 0 <= i < |s| && s[i] == x;
  }

  lemma Rejected(pairs: seq<Pair>, index: nat, slot: Slot)
    requires index < |pairs| && SlotOf(pairs[index]) == Some(slot)
    requires ValuesFor(pairs[..index], slot) != [] || !Fits(slot, pairs[index].value)
    ensures !SuppliedOnce(pairs, slot)
  {
    GatherOneMore(pairs, index, Supplier(slot));
    GatherGrows(pairs, index + 1, Supplier(slot));
  }

  lemma OnePair(before: seq<Pair>, p: Pair, slot: Slot)
    ensures ValuesFor(before + [p], slot) ==
      if SlotOf(p) == Some(slot) then ValuesFor(before, slot) + [p.value] else ValuesFor(before, slot)
  {
    assert (before + [p])[..|before|] == before;
  }

  lemma Ignored(found: Found, before: seq<Pair>, p: Pair)
    requires Tracks(found, before) && SlotOf(p) == None
    ensures Tracks(found, before + [p])
  {
    forall slot: Slot { OnePair(before, p, slot); }
  }

  lemma Stored(found: Found, next: Found, before: seq<Pair>, p: Pair, slot: Slot)
    requires Tracks(found, before) && SlotOf(p) == Some(slot) && SameElsewhere(found, next, slot)
    requires ValuesFor(before, slot) == [] && TracksSlot(next, slot, [p.value])
    ensures Tracks(next, before + [p])
  {
    forall other: Slot
      ensures TracksSlot(next, other, ValuesFor(before + [p], other))
    {
      OnePair(before, p, other);
      assert TracksSlot(found, other, ValuesFor(before, other));
    }
  }

  /** One turn of the loop; a refusal names the parameter that cannot be met. */
  method VisitPair(p: Pair, found: Found, ghost before: seq<Pair>) returns (ok: bool, next: Found, ghost culprit: Slot)
    requires Tracks(found, before)
    ensures ok ==> Tracks(next, before + [p])
    ensures !ok ==> SlotOf(p) == Some(culprit) && (ValuesFor(before, culprit) != [] || !Fits(culprit, p.value))
  {
    next, culprit := found, X;
    var key: int;
    if p.key.UnsignedInt? {
      key := CastInt(p.key.n);
    } else if p.key.NegativeInt? {
      key := -1 - CastInt(p.key.n);
    } else {
      Ignored(found, before, p);
      return true, found, culprit;
    }
    ok, next, culprit := Store(key, p, found, before);
  }

  /** The cases of the loop for an integer key. */
  method Store(key: int, p: Pair, found: Found, ghost before: seq<Pair>)
    returns (ok: bool, next: Found, ghost culprit: Slot)
    requires Tracks(found, before) && NumberOf(p.key) == Some(key)
    ensures ok ==> Tracks(next, before + [p])
    ensures !ok ==> SlotOf(p) == Some(culprit) && (ValuesFor(before, culprit) != [] || !Fits(culprit, p.value))
  {
    next, culprit := found, X;
    if key == 1 && p.value.UnsignedInt? {
      culprit := KeyType;
      assert TracksSlot(found, culprit, ValuesFor(before, culprit));
      if found.hasKeyType {
        return false, found, culprit;
      }
      next := found.(hasKeyType := true, keyType := CastInt(p.value.n));
    } else if key == 3 && p.value.NegativeInt? {
      culprit := Algorithm;
      assert TracksSlot(found, culprit, ValuesFor(before, culprit));
      if found.hasAlgorithm {
        return false, found, culprit;
      }
      next := found.(hasAlgorithm := true, algorithm := -1 - CastInt(p.value.n));
    } else if key == -1 && p.value.UnsignedInt? {
      culprit := Curve;
      assert TracksSlot(found, culprit, ValuesFor(before, culprit));
      if found.hasCurve {
        return false, found, culprit;
      }
      next := found.(hasCurve := true, curve := CastInt(p.value.n));
    } else if (key == -2 || key == -3) && p.value.ByteString? {
      culprit := if key == -2 then X else Y;
      assert TracksSlot(found, culprit, ValuesFor(before, culprit));
      if (if key == -2 then found.hasX else found.hasY) || |p.value.bytes| != 32 {
        return false, found, culprit;
      }
      if key == -2 {
        next := found.(hasX := true, x := p.value.bytes);
      } else {
        next := found.(hasY := true, y := p.value.bytes);
      }
    } else {
      Ignored(found, before, p);
      return true, found, culprit;
    }
    Stored(found, next, before, p, culprit);
    ok := true;
  }

  /** FidoVerifier.cpp, CoseEs256Coordinates, over the pairs of the map. */
  method CoseEs256Coordinates(pairs: seq<Pair>) returns (coordinates: Option<Bytes>)
    ensures coordinates == Coordinates(pairs)
  {
    if |pairs| > MAX_PAIRS {
      return None;
    }
    var found := Found(false, 0, false, 0, false, 0, false, [], false, []);
    for index := 0 to |pairs|
      invariant Tracks(found, pairs[..index])
    {
      ghost var culprit;
      var ok, next;
      ok, next, culprit := VisitPair(pairs[index], found, pairs[..index]);
      if !ok {
        Rejected(pairs, index, culprit);
        return None;
      }
      assert pairs[..index + 1] == pairs[..index] + [pairs[index]];
      found := next;
    }
    assert pairs[..|pairs|] == pairs;
    assert forall slot: Slot :: TracksSlot(found, slot, ValuesFor(pairs, slot));
    if !found.hasKeyType || !found.hasAlgorithm || !found.hasCurve || !found.hasX || !found.hasY
       || found.keyType != 2 || found.algorithm != COSE_ES256 || found.curve != 1 {
      return None;
    }
    return Some(found.x + found.y);
  }

  // ----- Consequences -----

  lemma SingletonOfMultiset<T>(s: seq<T>, t: seq<T>)
    requires multiset(s) == multiset(t)
    ensures |s| == |t| && (|s| == 1 ==> s == t)
  {
    assert |s| == |multiset(s)| && |t| == |multiset(t)|;
    if |s| == 1 {
      assert s[0] in multiset(t);
    }
  }

  /** Reordering the map changes neither the verdict nor the coordinates. */
  lemma OrderDoesNotMatter(pairs: seq<Pair>, other: seq<Pair>)
    requires multiset(pairs) == multiset(other)
    ensures Coordinates(pairs) == Coordinates(other)
  {
    assert |pairs| == |multiset(pairs)| && |other| == |multiset(other)|;
    forall slot: Slot
      ensures |ValuesFor(pairs, slot)| == |ValuesFor(other, slot)|
      ensures |ValuesFor(pairs, slot)| == 1 ==> ValuesFor(pairs, slot) == ValuesFor(other, slot)
    {
      GatherReordered(pairs, other, Supplier(slot));
      SingletonOfMultiset(ValuesFor(pairs, slot), ValuesFor(other, slot));
    }
  }

  // ----- What truncation does -----

  /** The label as section 7.1 of RFC 9052 means it, without truncation. */
  function ExactLabel(key: CborItem): Option<int> {
    match key
    case UnsignedInt(n) => Some(n)
    case NegativeInt(n) => Some(-1 - n)
    case _ => None
  }

  function ExactSlot(p: Pair): Option<Slot> {
    var key := ExactLabel(p.key);
    if key == Some(1) && p.value.UnsignedInt? then Some(KeyType)
    else if key == Some(3) && p.value.NegativeInt? then Some(Algorithm)
    else if key == Some(-1) && p.value.UnsignedInt? then Some(Curve)
    else if key == Some(-2) && p.value.ByteString? then Some(X)
    else if key == Some(-3) && p.value.ByteString? then Some(Y)
    else None
  }

  /** The values as section 7.1.1 of RFC 9053 and ES256 require them. */
  predicate ExactFits(slot: Slot, value: CborItem) {
    match slot
    case KeyType => value == UnsignedInt(2)
    case Algorithm => value == NegativeInt(6)
    case Curve => value == UnsignedInt(1)
    case X => value.ByteString? && |value.bytes| == 32
    case Y => value.ByteString? && |value.bytes| == 32
  }

  function ExactSupplier(slot: Slot): Pair -> seq<CborItem> {
    p => if ExactSlot(p) == Some(slot) then [p.value] else []
  }

  function ExactValuesFor(pairs: seq<Pair>, slot: Slot): seq<CborItem> {
    Gather(pairs, ExactSupplier(slot))
  }

  predicate ExactOnce(pairs: seq<Pair>, slot: Slot) {
    |ExactValuesFor(pairs, slot)| == 1 && ExactFits(slot, ExactValuesFor(pairs, slot)[0])
  }

  /** The standards' own reading of a map: labels and values are not truncated. */
  predicate IsExactKey(pairs: seq<Pair>) {
    && |pairs| <= MAX_PAIRS
    && ExactOnce(pairs, KeyType) && ExactOnce(pairs, Algorithm) && ExactOnce(pairs, Curve)
    && ExactOnce(pairs, X) && ExactOnce(pairs, Y)
  }

  function ExactCoordinates(pairs: seq<Pair>): Option<Bytes> {
    if IsExactKey(pairs) then Some(ExactValuesFor(pairs, X)[0].bytes + ExactValuesFor(pairs, Y)[0].bytes) else None
  }

  /** The item whose exact label is the truncated one. */
  function NarrowedLabel(key: CborItem): CborItem {
    var number := NumberOf(key);
    if number.None? then key
    else if number.value >= 0 then UnsignedInt(number.value)
    else NegativeInt(-1 - number.value)
  }

  /** The low 32 bits of a value. */
  function NarrowedValue(value: CborItem): CborItem {
    match value
    case UnsignedInt(n) => UnsignedInt(n % 0x1_0000_0000)
    case NegativeInt(n) => NegativeInt(n % 0x1_0000_0000)
    case _ => value
  }

  function Narrowed(p: Pair): Pair {
    Pair(NarrowedLabel(p.key), NarrowedValue(p.value))
  }

  function NarrowedMap(pairs: seq<Pair>): (narrowed: seq<Pair>)
    ensures |narrowed| == |pairs|
  {
    seq(|pairs|, i requires 0 <= i < |pairs| => Narrowed(pairs[i]))
  }

  function NarrowedValues(values: seq<CborItem>): (narrowed: seq<CborItem>)
    ensures |narrowed| == |values|
  {
    seq(|values|, i requires 0 <= i < |values| => NarrowedValue(values[i]))
  }

  lemma SmallCast(n: UInt64, k: nat)
    requires k < 0x8000_0000
    ensures CastInt(n) == k <==> n % 0x1_0000_0000 == k
  {
  }

  /** The truncated comparison finds the labels of RFC 9052 and, beyond them,
      exactly the labels outside the range of a 32-bit int that truncate to one of them. */
  lemma TruncationOnlyAliases(p: Pair)
    ensures SlotOf(p) != ExactSlot(p) <==>
      SlotOf(p).Some? && ExactLabel(p.key).Some? && !(-0x8000_0000 <= ExactLabel(p.key).value < 0x8000_0000)
  {
  }

  /** Truncating a pair and reading it exactly is what the program does. */
  lemma NarrowedReads(p: Pair)
    ensures ExactSlot(Narrowed(p)) == SlotOf(p)
    ensures forall slot: Slot ::
      SlotOf(p) == Some(slot) ==> (Fits(slot, p.value) <==> ExactFits(slot, NarrowedValue(p.value)))
  {
    if p.value.UnsignedInt? || p.value.NegativeInt? {
      SmallCast(p.value.n, 2);
      SmallCast(p.value.n, 6);
      SmallCast(p.value.n, 1);
    }
  }

  /** Labels and values of the standards survive truncation. */
  lemma StandardStays(p: Pair)
    ensures ExactSlot(p).Some? ==> SlotOf(p) == ExactSlot(p) && NarrowedLabel(p.key) == p.key
    ensures forall slot: Slot :: ExactFits(slot, p.value) ==> NarrowedValue(p.value) == p.value
  {
  }

  lemma {:induction false} NarrowedGather(pairs: seq<Pair>, slot: Slot)
    ensures ExactValuesFor(NarrowedMap(pairs), slot) == NarrowedValues(ValuesFor(pairs, slot))
  {
    if pairs != [] {
      var n := |pairs| - 1;
      NarrowedGather(pairs[..n], slot);
      NarrowedReads(pairs[n]);
      assert NarrowedMap(pairs)[..n] == NarrowedMap(pairs[..n]);
    }
  }

  /** Every value gathered for a parameter comes from a pair that supplies it. */
  lemma {:induction false} GatheredFrom(pairs: seq<Pair>, slot: Slot, j: nat) returns (i: nat)
    requires j < |ValuesFor(pairs, slot)|
    ensures i < |pairs| && SlotOf(pairs[i]) == Some(slot) && pairs[i].value == ValuesFor(pairs, slot)[j]
    decreases |pairs|
  {
    var n := |pairs| - 1;
    var before := ValuesFor(pairs[..n], slot);
    if j < |before| {
      i := GatheredFrom(pairs[..n], slot, j);
    } else {
      i := n;
    }
  }

  lemma OnceNarrowed(pairs: seq<Pair>, slot: Slot)
    ensures SuppliedOnce(pairs, slot) <==> ExactOnce(NarrowedMap(pairs), slot)
    ensures SuppliedOnce(pairs, slot) ==>
      ExactValuesFor(NarrowedMap(pairs), slot)[0] == NarrowedValue(ValuesFor(pairs, slot)[0])
  {
    NarrowedGather(pairs, slot);
    if |ValuesFor(pairs, slot)| == 1 {
      var i := GatheredFrom(pairs, slot, 0);
      NarrowedReads(pairs[i]);
    }
  }

  /** The program accepts exactly the maps that truncation turns into a key of the
      standards, and yields the coordinates of that key. */
  lemma ReadsTheNarrowedMap(pairs: seq<Pair>)
    ensures Coordinates(pairs) == ExactCoordinates(NarrowedMap(pairs))
  {
    OnceNarrowed(pairs, KeyType);
    OnceNarrowed(pairs, Algorithm);
    OnceNarrowed(pairs, Curve);
    OnceNarrowed(pairs, X);
    OnceNarrowed(pairs, Y);
  }

  /** The pair counts for something, and truncation changes its label or value. */
  predicate Wide(p: Pair) {
    SlotOf(p).Some? && Narrowed(p) != p
  }

  lemma {:induction false} GatherSame<A, B>(s: seq<A>, t: seq<A>, f: A -> seq<B>)
    requires |s| == |t| && forall i :: 0 <= i < |s| ==> f(s[i]) == f(t[i])
    ensures Gather(s, f) == Gather(t, f)
    decreases |s|
  {
    if s != [] {
      GatherSame(s[..|s| - 1], t[..|t| - 1], f);
    }
  }

  lemma NarrowPairReadsTheSame(p: Pair, slot: Slot)
    requires !Wide(p)
    ensures ExactSupplier(slot)(Narrowed(p)) == ExactSupplier(slot)(p)
  {
    NarrowedReads(p);
    StandardStays(p);
  }

  lemma NarrowMapsAgree(pairs: seq<Pair>)
    requires forall p :: p in pairs ==> !Wide(p)
    ensures ExactCoordinates(NarrowedMap(pairs)) == ExactCoordinates(pairs)
  {
    forall slot: Slot
      ensures ExactValuesFor(NarrowedMap(pairs), slot) == ExactValuesFor(pairs, slot)
    {
      forall i | 0 <= i < |pairs|
        ensures ExactSupplier(slot)(NarrowedMap(pairs)[i]) == ExactSupplier(slot)(pairs[i])
      {
        NarrowPairReadsTheSame(pairs[i], slot);
      }
      GatherSame(NarrowedMap(pairs), pairs, ExactSupplier(slot));
    }
  }

  lemma {:induction false} GatherNoMore<A, B>(s: seq<A>, f: A -> seq<B>, g: A -> seq<B>)
    requires Gather(s, f) == [] && forall i :: 0 <= i < |s| && f(s[i]) == [] ==> g(s[i]) == []
    ensures Gather(s, g) == []
    decreases |s|
  {
    if s != [] {
      GatherNoMore(s[..|s| - 1], f, g);
    }
  }

  /** Of a map that is a key in both readings no pair is wide: a wide pair would
      be a second one for its parameter, or would have a value of its own. */
  lemma KeyInBothIsNarrow(pairs: seq<Pair>, i: nat)
    requires i < |pairs| && IsExactKey(pairs) && IsEs256Key(pairs)
    ensures !Wide(pairs[i])
  {
    var p := pairs[i];
    NarrowedReads(p);
    StandardStays(p);
    if SlotOf(p).Some? {
      var slot := SlotOf(p).value;
      assert SuppliedOnce(pairs, slot) && ExactOnce(pairs, slot);
      SoleSupplier(pairs, i, slot);
    }
  }

  lemma Sole<A, B>(s: seq<A>, i: nat, f: A -> seq<B>)
    requires i < |s| && |Gather(s, f)| == 1
    ensures f(s[i]) != [] ==> Gather(s[..i] + s[i + 1..], f) == [] && Gather(s, f) == f(s[i])
    ensures f(s[i]) == [] ==> Gather(s[..i] + s[i + 1..], f) != []
  {
    var rest := s[..i] + s[i + 1..];
    GatherWithout(s, i, f);
    assert |Gather(s, f)| == |multiset(Gather(s, f))| == |multiset(Gather(rest, f))| + |multiset(f(s[i]))|;
    if f(s[i]) != [] {
      assert Gather(s, f)[0] in multiset(f(s[i]));
    }
  }

  lemma SoleSupplier(pairs: seq<Pair>, i: nat, slot: Slot)
    requires i < |pairs| && SlotOf(pairs[i]) == Some(slot)
    requires SuppliedOnce(pairs, slot) && ExactOnce(pairs, slot)
    ensures ExactSlot(pairs[i]) == Some(slot) && ExactFits(slot, pairs[i].value)
  {
    var rest := pairs[..i] + pairs[i + 1..];
    Sole(pairs, i, Supplier(slot));
    Sole(pairs, i, ExactSupplier(slot));
    ExactSuppliesNoMore(rest, slot);
  }

  lemma ExactSuppliesNoMore(pairs: seq<Pair>, slot: Slot)
    requires ValuesFor(pairs, slot) == []
    ensures ExactValuesFor(pairs, slot) == []
  {
    forall k | 0 <= k < |pairs| && Supplier(slot)(pairs[k]) == []
      ensures ExactSupplier(slot)(pairs[k]) == []
    {
      StandardStays(pairs[k]);
    }
    GatherNoMore(pairs, Supplier(slot), ExactSupplier(slot));
  }

  /** A map that is a key in the program's reading or in the standards' is read
      alike exactly when no pair that counts is wide; every other map is a key in
      neither. */
  lemma TruncationIsHarmlessIff(pairs: seq<Pair>)
    ensures IsEs256Key(pairs) || IsExactKey(pairs) ==>
      (Coordinates(pairs) == ExactCoordinates(pairs) <==> forall p :: p in pairs ==> !Wide(p))
    ensures !IsEs256Key(pairs) && !IsExactKey(pairs) ==> Coordinates(pairs) == ExactCoordinates(pairs) == None
  {
    ReadsTheNarrowedMap(pairs);
    if forall p :: p in pairs ==> !Wide(p) {
      NarrowMapsAgree(pairs);
    } else if IsExactKey(pairs) && IsEs256Key(pairs) {
      forall i | 0 <= i < |pairs|
        ensures !Wide(pairs[i])
      {
        KeyInBothIsNarrow(pairs, i);
      }
    }
  }

  // ----- Concrete keys -----

  /** Five pairs that supply the five parameters make a key, whatever follows them
      that counts for nothing. */
  lemma FivePairsAccepted(a: Pair, b: Pair, c: Pair, d: Pair, e: Pair, others: seq<Pair>)
    requires SlotOf(a) == Some(KeyType) && SlotOf(b) == Some(Algorithm) && SlotOf(c) == Some(Curve)
    requires SlotOf(d) == Some(X) && SlotOf(e) == Some(Y)
    requires Fits(KeyType, a.value) && Fits(Algorithm, b.value) && Fits(Curve, c.value) && Fits(X, d.value)
      && Fits(Y, e.value)
    requires |others| <= MAX_PAIRS - 5 && forall i :: 0 <= i < |others| ==> SlotOf(others[i]) == None
    ensures Coordinates([a, b, c, d, e] + others) == Some(d.value.bytes + e.value.bytes)
  {
    forall slot: Slot
      ensures ValuesFor([a, b, c, d, e] + others, slot) ==
        Supplied(a, slot) + Supplied(b, slot) + Supplied(c, slot) + Supplied(d, slot) + Supplied(e, slot)
    {
      GatherFive(a, b, c, d, e, Supplier(slot));
      GatherNothing([a, b, c, d, e], others, Supplier(slot));
    }
  }

  lemma {:induction false} GatherNothing<A, B>(s: seq<A>, others: seq<A>, f: A -> seq<B>)
    requires forall i :: 0 <= i < |others| ==> f(others[i]) == []
    ensures Gather(s + others, f) == Gather(s, f)
    decreases |others|
  {
    if others == [] {
      assert s + others == s;
    } else {
      var n := |others| - 1;
      GatherNothing(s, others[..n], f);
      assert (s + others)[..|s| + n] == s + others[..n];
    }
  }

  /** A key without any of the standard labels is accepted. */
  lemma AliasedLabelsAccepted(x: Bytes, y: Bytes)
    requires |x| == |y| == 32
    ensures
      var wrap := 0x1_0000_0000;
      var pairs := [
        Pair(UnsignedInt(wrap + 1), UnsignedInt(2)), Pair(UnsignedInt(wrap + 3), NegativeInt(6)),
        Pair(NegativeInt(wrap), UnsignedInt(1)), Pair(NegativeInt(wrap + 1), ByteString(x)),
        Pair(NegativeInt(wrap + 2), ByteString(y))];
      && (forall p :: p in pairs ==> ExactSlot(p) == None)
      && Coordinates(pairs) == Some(x + y)
  {
    var wrap := 0x1_0000_0000;
    var a, b := Pair(UnsignedInt(wrap + 1), UnsignedInt(2)), Pair(UnsignedInt(wrap + 3), NegativeInt(6));
    var c, d := Pair(NegativeInt(wrap), UnsignedInt(1)), Pair(NegativeInt(wrap + 1), ByteString(x));
    var e := Pair(NegativeInt(wrap + 2), ByteString(y));
    FivePairsAccepted(a, b, c, d, e, []);
    assert [a, b, c, d, e] + [] == [a, b, c, d, e];
  }

  /** A key with the standard labels but none of the standard numbers is accepted. */
  lemma AliasedValuesAccepted(x: Bytes, y: Bytes)
    requires |x| == |y| == 32
    ensures
      var wrap := 0x1_0000_0000;
      var pairs := [
        Pair(UnsignedInt(1), UnsignedInt(wrap + 2)), Pair(UnsignedInt(3), NegativeInt(wrap + 6)),
        Pair(NegativeInt(0), UnsignedInt(wrap + 1)), Pair(NegativeInt(1), ByteString(x)),
        Pair(NegativeInt(2), ByteString(y))];
      && (forall p :: p in pairs ==> SlotOf(p) == ExactSlot(p))
      && !IsExactKey(pairs)
      && Coordinates(pairs) == Some(x + y)
  {
    var wrap := 0x1_0000_0000;
    var a, b := Pair(UnsignedInt(1), UnsignedInt(wrap + 2)), Pair(UnsignedInt(3), NegativeInt(wrap + 6));
    var c, d := Pair(NegativeInt(0), UnsignedInt(wrap + 1)), Pair(NegativeInt(1), ByteString(x));
    var e := Pair(NegativeInt(2), ByteString(y));
    var pairs := [a, b, c, d, e];
    FivePairsAccepted(a, b, c, d, e, []);
    assert pairs + [] == pairs;
    GatherFive(a, b, c, d, e, ExactSupplier(KeyType));
    assert ExactValuesFor(pairs, KeyType) == [UnsignedInt(wrap + 2)];
  }

  lemma StandardKeyIsExact(x: Bytes, y: Bytes, extra: Pair)
    requires |x| == |y| == 32 && ExactSlot(extra) == None
    ensures IsExactKey(StandardKey(x, y) + [extra])
  {
    var a, b := Pair(UnsignedInt(1), UnsignedInt(2)), Pair(UnsignedInt(3), NegativeInt(6));
    var c, d, e := Pair(NegativeInt(0), UnsignedInt(1)), Pair(NegativeInt(1), ByteString(x)),
      Pair(NegativeInt(2), ByteString(y));
    forall slot: Slot
      ensures ExactValuesFor(StandardKey(x, y) + [extra], slot)
        == ExactSupplier(slot)(a) + ExactSupplier(slot)(b) + ExactSupplier(slot)(c)
           + ExactSupplier(slot)(d) + ExactSupplier(slot)(e)
    {
      GatherFive(a, b, c, d, e, ExactSupplier(slot));
      GatherNothing(StandardKey(x, y), [extra], ExactSupplier(slot));
    }
  }

  /** A wide pair beside a proper key makes the program refuse the key. */
  lemma AliasedDuplicateRefused(x: Bytes, y: Bytes)
    requires |x| == |y| == 32
    ensures
      var pairs := StandardKey(x, y) + [Pair(UnsignedInt(0x1_0000_0001), UnsignedInt(2))];
      IsExactKey(pairs) && Coordinates(pairs) == None
  {
    var key, extra := StandardKey(x, y), Pair(UnsignedInt(0x1_0000_0001), UnsignedInt(2));
    StandardKeyIsExact(x, y, extra);
    GatherFive(key[0], key[1], key[2], key[3], key[4], Supplier(KeyType));
    assert key == [key[0], key[1], key[2], key[3], key[4]];
    OnePair(key, extra, KeyType);
  }

  function StandardKey(x: Bytes, y: Bytes): seq<Pair> {
    [Pair(UnsignedInt(1), UnsignedInt(2)), Pair(UnsignedInt(3), NegativeInt(6)), Pair(NegativeInt(0), UnsignedInt(1)),
     Pair(NegativeInt(1), ByteString(x)), Pair(NegativeInt(2), ByteString(y))]
  }

  lemma StandardKeyAccepted(x: Bytes, y: Bytes, others: seq<Pair>)
    requires |x| == |y| == 32
    requires |others| <= MAX_PAIRS - 5 && forall i :: 0 <= i < |others| ==> SlotOf(others[i]) == None
    ensures Coordinates(StandardKey(x, y) + others) == Some(x + y)
  {
    var key := StandardKey(x, y);
    FivePairsAccepted(key[0], key[1], key[2], key[3], key[4], others);
    assert key == [key[0], key[1], key[2], key[3], key[4]];
  }

  lemma GatherFive<A, B>(a: A, b: A, c: A, d: A, e: A, f: A -> seq<B>)
    ensures Gather([a, b, c, d, e], f) == f(a) + f(b) + f(c) + f(d) + f(e)
  {
    var s := [a, b, c, d, e];
    GatherOneMore(s, 0, f);
    GatherOneMore(s, 1, f);
    GatherOneMore(s, 2, f);
    GatherOneMore(s, 3, f);
    GatherOneMore(s, 4, f);
    assert s[..5] == s;
  }
}
