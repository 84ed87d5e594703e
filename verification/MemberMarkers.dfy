/** high-storm/src/high_storm/assets.rs and droplets.rs: the markers that name members on chain. */
module MemberMarkers {
  import opened Bytes
  import opened Prelude
  import opened Sorting

  /** An output script: empty (a fee), an OP_RETURN with exactly one minimal push, or anything else. */
  datatype Script = Empty | OpReturn(data: seq<Byte>) | Other(id: nat)

  const INITIAL_MEMBERS_MAGIC: seq<Byte> := [0x4F, 0x4D]
  const INITIAL_MEMBERS_VERSION: Byte := 1
  const MIGRATED_MEMBERS_VERSION: Byte := 2
  const INITIAL_MEMBERS_HEADER_LEN: nat := 5

  const MEMBER_MAGIC: seq<Byte> := [0x4F, 0x44]
  const MEMBER_VERSION: Byte := 1
  const MEMBER_DATA_LEN: nat := 35

  const KEY_LEN: nat := 32

  datatype AssetError = MemberCount | NoMembers | InvalidMarker | MemberOrder

  /** A 32-byte key, by its big-endian value. */
  predicate IsKey(key: nat) {
    key < Pow256(KEY_LEN)
  }

  predicate AreKeys(keys: seq<nat>) {
    forall key | key in keys :: IsKey(key)
  }

  /** The 32 bytes of a key. */
  function KeyBytes(key: nat): (bytes: seq<Byte>)
    requires IsKey(key)
    ensures |bytes| == KEY_LEN
  {
    ToBigEndian(key, KEY_LEN)
  }

  function KeyFrom(bytes: seq<Byte>): (key: nat)
    requires |bytes| == KEY_LEN
    ensures IsKey(key)
  {
    FromBigEndian(bytes)
  }

  lemma KeyRoundTrip(key: nat)
    requires IsKey(key)
    ensures KeyFrom(KeyBytes(key)) == key
  {
    DecodeEncoded(key, KEY_LEN);
  }

  lemma BytesRoundTrip(bytes: seq<Byte>)
    requires |bytes| == KEY_LEN
    ensures KeyBytes(KeyFrom(bytes)) == bytes
  {
    EncodeDecoded(bytes);
  }

  function EncodeKeys(keys: seq<nat>): (data: seq<Byte>)
    requires AreKeys(keys)
    ensures |data| == |keys| * KEY_LEN
  {
    if keys == [] then [] else assert keys[0] in keys; KeyBytes(keys[0]) + EncodeKeys(keys[1..])
  }

  /** `chunks_exact(32)` */
  function DecodeKeys(data: seq<Byte>): (keys: seq<nat>)
    ensures |keys| == |data| / KEY_LEN
  {
    if |data| < KEY_LEN then [] else [KeyFrom(data[..KEY_LEN])] + DecodeKeys(data[KEY_LEN..])
  }

  lemma {:induction false} DecodedKeys(data: seq<Byte>)
    ensures AreKeys(DecodeKeys(data))
    ensures |data| % KEY_LEN == 0 ==> EncodeKeys(DecodeKeys(data)) == data
  {
    if |data| >= KEY_LEN {
      DecodedKeys(data[KEY_LEN..]);
      BytesRoundTrip(data[..KEY_LEN]);
      assert data == data[..KEY_LEN] + data[KEY_LEN..];
      var keys := DecodeKeys(data);
      assert keys[1..] == DecodeKeys(data[KEY_LEN..]);
    }
  }

  lemma {:induction false} EncodedKeys(keys: seq<nat>)
    requires AreKeys(keys)
    ensures DecodeKeys(EncodeKeys(keys)) == keys
  {
    if keys != [] {
      assert keys[0] in keys;
      EncodedKeys(keys[1..]);
      KeyRoundTrip(keys[0]);
      var head, rest := KeyBytes(keys[0]), EncodeKeys(keys[1..]);
      assert (head + rest)[..KEY_LEN] == head && (head + rest)[KEY_LEN..] == rest;
    }
  }

  /** `windows(2).all(pair[0] < pair[1])` */
  predicate AdjacentAscending(keys: seq<nat>) {
    forall i | 0 <= i < |keys| - 1 :: keys[i] < keys[i + 1]
  }

  lemma {:induction false} AdjacentIsEnough(keys: seq<nat>)
    ensures AdjacentAscending(keys) <==> StrictlyAscending(keys)
  {
    if AdjacentAscending(keys) {
      forall i, j | 0 <= i < j < |keys| ensures keys[i] < keys[j] {
        AscendsTo(keys, i, j);
      }
    }
  }

  lemma {:induction false} AscendsTo(keys: seq<nat>, i: nat, j: nat)
    requires AdjacentAscending(keys) && i < j < |keys|
    ensures keys[i] < keys[j]
    decreases j
  {
    if i < j - 1 {
      AscendsTo(keys, i, j - 1);
    }
  }

  // ----- Printing -----

  function Marker(version: Byte, keys: seq<nat>, proposer: Option<nat>): seq<Byte>
    requires AreKeys(keys) && |keys| < Pow256(2) && (proposer.Some? ==> IsKey(proposer.value))
  {
    Assembled(version, ToBigEndian(|keys|, 2), EncodeKeys(keys), if proposer.Some? then KeyBytes(proposer.value)
        else [])
  }

  function Assembled(version: Byte, count: seq<Byte>, body: seq<Byte>, tail: seq<Byte>): seq<Byte> {
    INITIAL_MEMBERS_MAGIC + [version] + count + body + tail
  }

  lemma FieldsOf(version: Byte, count: seq<Byte>, body: seq<Byte>, tail: seq<Byte>)
    requires |count| == 2
    ensures var data := Assembled(version, count, body, tail);
            && |data| == INITIAL_MEMBERS_HEADER_LEN + |body| + |tail|
            && HasMagic(data) && data[2] == version && data[3..5] == count
            && data[INITIAL_MEMBERS_HEADER_LEN..INITIAL_MEMBERS_HEADER_LEN + |body|] == body
            && data[INITIAL_MEMBERS_HEADER_LEN + |body|..] == tail
  {
    var data := Assembled(version, count, body, tail);
    assert data[..2] == INITIAL_MEMBERS_MAGIC;
  }

  lemma FieldsMake(data: seq<Byte>, end: nat)
    requires HasMagic(data) && INITIAL_MEMBERS_HEADER_LEN <= end <= |data|
    ensures data == Assembled(data[2], data[3..5], data[INITIAL_MEMBERS_HEADER_LEN..end], data[end..])
  {
  }

  predicate Countable(keys: seq<nat>) {
    0 < |keys| <= U16_MAX
  }

  lemma U16IsTwoBytes()
    ensures Pow256(2) == U16_MAX + 1
  {
  }

  lemma CanonicalAreKeys(members: seq<nat>)
    requires AreKeys(members)
    ensures AreKeys(CanonicalKeys(members))
  {
    assert forall key | key in CanonicalKeys(members) :: key in ToSet(members);
  }

  /** The buffer is filled key by key; what it holds is the marker of the members' canonical list. */
  method MembersScript(members: seq<nat>, version: Byte, proposer: Option<nat>) returns (r: Result<Script, AssetError>)
    requires AreKeys(members) && (proposer.Some? ==> IsKey(proposer.value))
    ensures r == PrintedScript(members, version, proposer)
  {
    CanonicalAreKeys(members);
    U16IsTwoBytes();
    var keys := CanonicalKeys(members);
    if |keys| > U16_MAX {
      return Err(MemberCount);
    }
    if keys == [] {
      return Err(NoMembers);
    }
    var data := INITIAL_MEMBERS_MAGIC + [version] + ToBigEndian(|keys|, 2);
    ghost var header := data;
    for i := 0 to |keys|
      invariant header + EncodeKeys(keys) == data + EncodeKeys(keys[i..])
    {
      assert keys[i..][1..] == keys[i + 1..];
      assert keys[i] in keys;
      data := data + KeyBytes(keys[i]);
    }
    assert data == header + EncodeKeys(keys) == header + EncodeKeys(keys) + [];
    if proposer.Some? {
      data := data + KeyBytes(proposer.value);
    }
    return Ok(OpReturn(data));
  }

  function PrintedScript(members: seq<nat>, version: Byte, proposer: Option<nat>): Result<Script, AssetError>
    requires AreKeys(members) && (proposer.Some? ==> IsKey(proposer.value))
  {
    CanonicalAreKeys(members);
    U16IsTwoBytes();
    var keys := CanonicalKeys(members);
    if |keys| > U16_MAX then Err(MemberCount)
    else if keys == [] then Err(NoMembers)
    else Ok(OpReturn(Marker(version, keys, proposer)))
  }

  // ----- Parsing -----

  predicate HasMagic(data: seq<Byte>) {
    |data| >= 2 && data[..2] == INITIAL_MEMBERS_MAGIC
  }

  function CountField(data: seq<Byte>): nat
    requires |data| >= INITIAL_MEMBERS_HEADER_LEN
  {
    FromBigEndian(data[3..5])
  }

  /** Not a members marker at all is `None`; a broken or migrated one is an error. */
  function InitialMembersFromScript(script: Script): Result<Option<seq<nat>>, AssetError> {
    if !script.OpReturn? || !HasMagic(script.data) then Ok(None)
    else
      var data := script.data;
      if |data| < INITIAL_MEMBERS_HEADER_LEN || data[2] != INITIAL_MEMBERS_VERSION then Err(InvalidMarker)
      else
        var count := CountField(data);
        if count == 0 || |data| != INITIAL_MEMBERS_HEADER_LEN + count * KEY_LEN then Err(InvalidMarker)
        else
          var members := DecodeKeys(data[INITIAL_MEMBERS_HEADER_LEN..]);
          if !AdjacentAscending(members) then Err(MemberOrder) else Ok(Some(members))
  }

  /** Anything malformed is not a marker. */
  function MigratedMembersProposerFromScript(script: Script): Option<nat> {
    if !script.OpReturn? || !HasMagic(script.data) then None
    else
      var data := script.data;
      if |data| < INITIAL_MEMBERS_HEADER_LEN || data[2] != MIGRATED_MEMBERS_VERSION then None
      else
        var count := CountField(data);
        var end := INITIAL_MEMBERS_HEADER_LEN + count * KEY_LEN;
        if count == 0 || |data| != end + KEY_LEN then None
        else if !AdjacentAscending(DecodeKeys(data[INITIAL_MEMBERS_HEADER_LEN..end])) then None
        else Some(KeyFrom(data[end..]))
  }

  // ----- The two directions agree -----

  lemma MarkerFields(version: Byte, keys: seq<nat>, proposer: Option<nat>)
    requires AreKeys(keys) && |keys| < Pow256(2) && (proposer.Some? ==> IsKey(proposer.value))
    ensures var data := Marker(version, keys, proposer);
            var end := INITIAL_MEMBERS_HEADER_LEN + |keys| * KEY_LEN;
            && |data| == end + (if proposer.Some? then KEY_LEN else 0)
            && HasMagic(data) && data[2] == version && CountField(data) == |keys|
            && data[INITIAL_MEMBERS_HEADER_LEN..end] == EncodeKeys(keys)
            && (proposer.Some? ==> KeyFrom(data[end..]) == proposer.value)
  {
    var tail := if proposer.Some? then KeyBytes(proposer.value) else [];
    FieldsOf(version, ToBigEndian(|keys|, 2), EncodeKeys(keys), tail);
    DecodeEncoded(|keys|, 2);
    if proposer.Some? {
      KeyRoundTrip(proposer.value);
    }
  }

  /** Printing succeeds for 1 to 65535 distinct keys, and parsing gives back the sorted list without repeats. */
  lemma InitialRoundTrips(members: seq<nat>)
    requires AreKeys(members)
    ensures PrintedScript(members, INITIAL_MEMBERS_VERSION, None).Ok? <==> 0 < |ToSet(members)| <= U16_MAX
    ensures var printed := PrintedScript(members, INITIAL_MEMBERS_VERSION, None);
            printed.Ok? ==> InitialMembersFromScript(printed.value) == Ok(Some(CanonicalKeys(members)))
  {
    var keys := CanonicalKeys(members);
    AscendingMultiset(keys);
    CanonicalAreKeys(members);
    U16IsTwoBytes();
    if Countable(keys) {
      MarkerFields(INITIAL_MEMBERS_VERSION, keys, None);
      var data := Marker(INITIAL_MEMBERS_VERSION, keys, None);
      assert data[INITIAL_MEMBERS_HEADER_LEN..] == data[INITIAL_MEMBERS_HEADER_LEN..|data|];
      EncodedKeys(keys);
      AdjacentIsEnough(keys);
    }
  }

  lemma CountedKeys(data: seq<Byte>, keys: seq<Byte>)
    requires |data| >= INITIAL_MEMBERS_HEADER_LEN && |keys| == CountField(data) * KEY_LEN
    ensures |DecodeKeys(keys)| == CountField(data) <= U16_MAX
    ensures AreKeys(DecodeKeys(keys)) && EncodeKeys(DecodeKeys(keys)) == keys
    ensures ToBigEndian(CountField(data), 2) == data[3..5]
  {
    U16IsTwoBytes();
    DecodedKeys(keys);
    EncodeDecoded(data[3..5]);
  }

  lemma CanonicalAlready(keys: seq<nat>)
    requires StrictlyAscending(keys)
    ensures CanonicalKeys(keys) == keys
  {
    AscendingIsCanonical(CanonicalKeys(keys), keys);
  }

  /** Every marker the parser accepts is, byte for byte, the printing of what it returned. */
  lemma InitialIsCanonical(script: Script)
    requires InitialMembersFromScript(script).Ok? && InitialMembersFromScript(script).value.Some?
    ensures var members := InitialMembersFromScript(script).value.value;
            AreKeys(members) && PrintedScript(members, INITIAL_MEMBERS_VERSION, None) == Ok(script)
  {
    var data := script.data;
    var members := InitialMembersFromScript(script).value.value;
    CountedKeys(data, data[INITIAL_MEMBERS_HEADER_LEN..]);
    assert data[INITIAL_MEMBERS_HEADER_LEN..] == data[INITIAL_MEMBERS_HEADER_LEN..|data|];
    AdjacentIsEnough(members);
    CanonicalAlready(members);
    MembersGiveMarker(data, |data|, None);
  }

  /** The fields of a well-formed payload determine it. */
  lemma MembersGiveMarker(data: seq<Byte>, end: nat, proposer: Option<nat>)
    requires HasMagic(data) && INITIAL_MEMBERS_HEADER_LEN <= end <= |data|
    requires end == INITIAL_MEMBERS_HEADER_LEN + CountField(data) * KEY_LEN
    requires if proposer.None? then end == |data| else IsKey(proposer.value) && data[end..] == KeyBytes(proposer.value)
    ensures var keys := DecodeKeys(data[INITIAL_MEMBERS_HEADER_LEN..end]);
            AreKeys(keys) && |keys| < Pow256(2) && Marker(data[2], keys, proposer) == data
  {
    CountedKeys(data, data[INITIAL_MEMBERS_HEADER_LEN..end]);
    U16IsTwoBytes();
    FieldsMake(data, end);
  }

  /** The migrated marker returns its proposer. */
  lemma MigratedRoundTrips(members: seq<nat>, proposer: nat)
    requires AreKeys(members) && IsKey(proposer)
    requires PrintedScript(members, MIGRATED_MEMBERS_VERSION, Some(proposer)).Ok?
    ensures MigratedMembersProposerFromScript(PrintedScript(members, MIGRATED_MEMBERS_VERSION, Some(proposer)).value)
            == Some(proposer)
  {
    var keys := CanonicalKeys(members);
    CanonicalAreKeys(members);
    U16IsTwoBytes();
    MarkerFields(MIGRATED_MEMBERS_VERSION, keys, Some(proposer));
    EncodedKeys(keys);
    AdjacentIsEnough(keys);
  }

  /** And an accepted one is the printing of the members it carries with that proposer. */
  lemma MigratedIsCanonical(script: Script) returns (members: seq<nat>)
    requires MigratedMembersProposerFromScript(script).Some?
    ensures AreKeys(members) && IsKey(MigratedMembersProposerFromScript(script).value)
    ensures PrintedScript(members, MIGRATED_MEMBERS_VERSION, Some(MigratedMembersProposerFromScript(script).value))
            == Ok(script)
  {
    var data := script.data;
    var end := INITIAL_MEMBERS_HEADER_LEN + CountField(data) * KEY_LEN;
    members := DecodeKeys(data[INITIAL_MEMBERS_HEADER_LEN..end]);
    CountedKeys(data, data[INITIAL_MEMBERS_HEADER_LEN..end]);
    AdjacentIsEnough(members);
    CanonicalAlready(members);
    BytesRoundTrip(data[end..]);
    MembersGiveMarker(data, end, Some(KeyFrom(data[end..])));
  }

  /** Neither parser accepts the other's version, and neither takes an exchange marker. */
  lemma MarkersAreApart(script: Script)
    ensures !(InitialMembersFromScript(script).Ok? && InitialMembersFromScript(script).value.Some?
            && MigratedMembersProposerFromScript(script).Some?)
    ensures MigratedMembersProposerFromScript(script).Some? ==> InitialMembersFromScript(script) == Err(InvalidMarker)
    ensures MemberFromScript(script).Some? ==>
            InitialMembersFromScript(script) == Ok(None) && MigratedMembersProposerFromScript(script) == None
  {
    if MemberFromScript(script).Some? {
      assert script.data[..2][1] != INITIAL_MEMBERS_MAGIC[1];
    }
  }

  // ----- The exchange marker -----

  function MemberScript(member: nat): Script
    requires IsKey(member)
  {
    OpReturn(MEMBER_MAGIC + [MEMBER_VERSION] + KeyBytes(member))
  }

  function MemberFromScript(script: Script): Option<nat> {
    if !script.OpReturn? then None
    else if |script.data| != MEMBER_DATA_LEN || script.data[..2] != MEMBER_MAGIC || script.data[2] != MEMBER_VERSION
        then None
    else Some(KeyFrom(script.data[3..]))
  }

  /** A script names a member exactly when it is that member's marker. */
  lemma MemberMarkerIsExact(script: Script, member: nat)
    ensures MemberFromScript(script) == Some(member) <==> IsKey(member) && script == MemberScript(member)
  {
    if MemberFromScript(script).Some? {
      BytesRoundTrip(script.data[3..]);
      assert script.data == script.data[..2] + [script.data[2]] + script.data[3..];
    }
    if IsKey(member) {
      var data := MemberScript(member).data;
      KeyRoundTrip(member);
      assert data[3..] == KeyBytes(member);
      assert data[..2] == MEMBER_MAGIC;
    }
  }
}
