/**
 * The stateful side of the locality UUID: the generator's mode flag and
 * 32-bit counter (static fields of the source class, gathered here into one
 * object), the generating constructor that fills a fresh 16-byte array index
 * by index, the byte-array constructor, and the byte-wise `Equals` loop.
 *
 * The clock ticks, the process id, the MAC address and the MD5 digest used to
 * reseed the counter are parameters: they come from the operating system.
 */
module UuidGenerator {
  import opened Wrappers
  import opened UuidCodec

  /** How far the counter moves per identifier: by one in sequential mode, by `Increment` otherwise. */
  function Step(sequential: bool): (r: bv32)
    ensures r != 0
  {
    if sequential then 1 else Increment
  }

  /** Two identifiers generated one after the other in the same mode, with the same clock, pid and MAC, differ. */
  lemma ConsecutiveIdsDiffer(sequential: bool, count: bv32, time: bv64, pid: bv32, mac: seq<bv8>)
    requires |mac| >= 6
    ensures Layout(sequential, count, time, pid, mac) != Layout(sequential, count + Step(sequential), time, pid, mac)
  {
    LayoutCountInjective(sequential, count, count + Step(sequential), time, pid, mac);
  }

  /** The seed `UseSequentialIds` builds from a digest: its first four bytes, little-endian. */
  function DigestSeed(digest: seq<bv8>): bv32
    requires |digest| >= 4
  {
    (digest[0] as bv32) | ((digest[1] as bv32) << 8) | ((digest[2] as bv32) << 16) | ((digest[3] as bv32) << 24)
  }

  /** The seed keeps the first four digest bytes, least significant first, and nothing else. */
  lemma DigestSeedBytes(digest: seq<bv8>)
    requires |digest| >= 4
    ensures var s := DigestSeed(digest);
      [Low8(s), Low8(s >> 8), Low8(s >> 16), Low8(s >> 24)] == digest[..4]
  {
    SeedLanes(digest[0], digest[1], digest[2], digest[3]);
  }

  /** The bit-level fact behind `DigestSeedBytes`, stated on the four bytes alone. */
  lemma SeedLanes(d0: bv8, d1: bv8, d2: bv8, d3: bv8)
    ensures var s := (d0 as bv32) | ((d1 as bv32) << 8) | ((d2 as bv32) << 16) | ((d3 as bv32) << 24);
      Low8(s) == d0 && Low8(s >> 8) == d1 && Low8(s >> 16) == d2 && Low8(s >> 24) == d3
  {
  }

  /** The generator state the source keeps in static fields. */
  class Generator {
    /** Whether identifiers are generated in sequential mode. */
    var sequential: bool
    /** The shared counter, a 32-bit integer that wraps around. */
    var counter: bv32

    /** The initial state: variable mode, the counter at a random non-negative `int` supplied by the caller. */
    constructor (seed: bv32)
      requires seed < 0x8000_0000
      ensures !sequential && counter == seed
    {
      sequential := false;
      counter := seed;
    }

    /**
     * `UUID()`: advance the counter, then fill the 16 content bytes. The
     * layout does not depend on whether the counter hands back its old or its
     * new value; this model uses the new one.
     */
    method NewUuid(time: bv64, pid: bv32, mac: seq<bv8>) returns (id: Uuid)
      requires |mac| >= 6
      modifies this
      ensures sequential == old(sequential)
      ensures counter == old(counter) + Step(sequential)
      ensures id == Uuid(Layout(sequential, counter, time, pid, mac))
    {
      var count := counter + Step(sequential);
      counter := count;
      var content := FillContent(sequential, count, time, pid, mac);
      id := Uuid(content);
    }

    /** `UseSequentialIds`: switching in reseeds the counter from the digest; a repeated call changes nothing. */
    method UseSequentialIds(digest: seq<bv8>)
      requires |digest| >= 4
      modifies this
      ensures sequential
      ensures counter == if old(sequential) then old(counter) else DigestSeed(digest)
    {
      if !sequential {
        var x: bv32 := digest[0] as bv32;
        x := x | ((digest[1] as bv32) << 8);
        x := x | ((digest[2] as bv32) << 16);
        x := x | ((digest[3] as bv32) << 24);
        counter := x;
      }
      sequential := true;
    }

    /** `UseVariableIds`: clears the flag and leaves the counter alone. */
    method UseVariableIds()
      modifies this
      ensures !sequential && counter == old(counter)
    {
      sequential := false;
    }
  }

  /** The generating constructor's fill of a fresh 16-byte array, once the counter has moved. */
  method FillContent(sequential: bool, count: bv32, time: bv64, pid: bv32, mac: seq<bv8>) returns (c: Bytes16)
    requires |mac| >= 6
    ensures c == Layout(sequential, count, time, pid, mac)
  {
    var content := new bv8[16];
    if !sequential {
      WriteVariableCounter(content, count);
    } else {
      WriteSequentialCounter(content, count);
    }
    ghost var counterBytes := content[..4];
    WriteProcessId(content, pid);
    assert content[..4] == counterBytes;
    WriteVersionAndMac(content, mac);
    assert content[..4] == content[..6][..4] == counterBytes;
    assert content[4..6] == content[..6][4..] == PidBytes(pid);
    WriteTime(content, time);
    assert content[..4] == content[..10][..4] == counterBytes;
    assert content[4..6] == content[..10][4..6] == PidBytes(pid);
    assert content[6..10] == content[..10][6..] == [VersionDec | (0xF & mac[2]), mac[3], mac[4], mac[5]];
    assert content[..] == content[..4] + content[4..6] + content[6..10] + content[10..];
    c := content[..];
  }

  /*
   * The generating constructor's assignments, one region of the content at a
   * time. Each writes its own indices and leaves the rest of the array alone.
   */

  /** Bytes 0-3 in variable mode: the nibbles of the count, swapped pairwise. */
  method WriteVariableCounter(content: array<bv8>, count: bv32)
    requires content.Length == 16
    modifies content
    ensures content[..4] == VariableCounterBytes(count)
    ensures content[4..] == old(content[4..])
  {
    content[0] := Low8(((count & 0xF) << 4) | ((count & 0xF0) >> 4));
    content[1] := Low8(((count & 0xF00) >> 4) | ((count & 0xF000) >> 12));
    content[2] := Low8(((count & 0xF0000) >> 12) | ((count & 0xF00000) >> 20));
    content[3] := Low8(((count & 0xF000000) >> 20) | ((count & 0xF0000000) >> 28));
  }

  /** Bytes 0-3 in sequential mode: the count, most significant byte first. */
  method WriteSequentialCounter(content: array<bv8>, count: bv32)
    requires content.Length == 16
    modifies content
    ensures content[..4] == SequentialCounterBytes(count)
    ensures content[4..] == old(content[4..])
  {
    content[0] := Low8(count >> 24);
    content[1] := Low8(count >> 16);
    content[2] := Low8(count >> 8);
    content[3] := Low8(count);
  }

  /** Bytes 4-5: the low two bytes of the process id, big-endian. */
  method WriteProcessId(content: array<bv8>, pid: bv32)
    requires content.Length == 16
    modifies content
    ensures content[..4] == old(content[..4])
    ensures content[4..6] == PidBytes(pid)
    ensures content[6..] == old(content[6..])
  {
    content[4] := Low8(pid >> 8);
    content[5] := Low8(pid);
  }

  /** Bytes 6-9: the version nibble over the low nibble of MAC byte 2, then MAC bytes 3-5. */
  method WriteVersionAndMac(content: array<bv8>, mac: seq<bv8>)
    requires content.Length == 16 && |mac| >= 6
    modifies content
    ensures content[..6] == old(content[..6])
    ensures content[6..10] == [VersionDec | (0xF & mac[2]), mac[3], mac[4], mac[5]]
    ensures content[10..] == old(content[10..])
  {
    content[6] := VersionDec | (0xF & mac[2]);
    content[7] := mac[3];
    content[8] := mac[4];
    content[9] := mac[5];
  }

  /** Bytes 10-15: the low 48 bits of the tick count, big-endian. */
  method WriteTime(content: array<bv8>, time: bv64)
    requires content.Length == 16
    modifies content
    ensures content[..10] == old(content[..10])
    ensures content[10..] == TimeBytes(time)
  {
    content[10] := Low8Of64(time >> 40);
    content[11] := Low8Of64(time >> 32);
    content[12] := Low8Of64(time >> 24);
    content[13] := Low8Of64(time >> 16);
    content[14] := Low8Of64(time >> 8);
    content[15] := Low8Of64(time);
  }

  /**
   * `UUID(byte[])` as documented: null and any length but 16 are refused,
   * otherwise the 16 bytes are copied into freshly allocated content.
   */
  method FromBytes(bytes: array?<bv8>) returns (r: Result<Uuid, UuidError>)
    ensures bytes == null <==> r == Failure(NullInput)
    ensures bytes != null && bytes.Length != 16 ==> r == Failure(InvalidLength(bytes.Length))
    ensures bytes != null && bytes.Length == 16 ==> r.Success? && r.value.content == bytes[..]
  {
    if bytes == null {
      return Failure(NullInput);
    }
    if bytes.Length != 16 {
      return Failure(InvalidLength(bytes.Length));
    }
    var content := new bv8[16];
    var i := 0;
    while i < 16
      invariant 0 <= i <= 16
      invariant content[..i] == bytes[..i]
    {
      content[i] := bytes[i];
      i := i + 1;
    }
    assert content[..] == bytes[..];
    r := Success(Uuid(content[..]));
  }

  /**
   * `UUID(byte[])` as written: the checks are made, but the copy targets a
   * content array that was never allocated, so every input that passes them
   * ends in a null-destination error.
   */
  function FromBytesAsWritten(bytes: Option<seq<bv8>>): (r: Result<Uuid, UuidError>)
    ensures bytes.None? ==> r == Failure(NullInput)
    ensures bytes.Some? && |bytes.value| != 16 ==> r == Failure(InvalidLength(|bytes.value|))
  {
    if bytes.None? then Failure(NullInput)
    else if |bytes.value| != 16 then Failure(InvalidLength(|bytes.value|))
    else Failure(NullDestination)
  }

  /** As written, the byte constructor accepts no input at all, not even the 16 bytes of an existing identifier. */
  lemma FromBytesAsWrittenRejectsAll(bytes: Option<seq<bv8>>)
    ensures FromBytesAsWritten(bytes).Failure?
    ensures bytes.Some? && |bytes.value| == 16 ==> FromBytesAsWritten(bytes) == Failure(NullDestination)
  {
  }

  /**
   * `Equals` for an argument of the same runtime type: null is unequal,
   * otherwise the contents are compared byte by byte. The reference check is
   * subsumed by the content comparison; arguments of another runtime type,
   * which the source's `GetType()` check answers false, cannot be passed here.
   */
  method Equals(self: Uuid, o: Option<Uuid>) returns (eq: bool)
    ensures eq <==> o == Some(self)
  {
    if o.None? {
      return false;
    }
    var that := o.value;
    if |self.content| != |that.content| {
      return false;
    }
    var i := 0;
    while i < |self.content|
      invariant 0 <= i <= 16
      invariant self.content[..i] == that.content[..i]
    {
      if self.content[i] != that.content[i] {
        return false;
      }
      i := i + 1;
    }
    assert self.content == that.content;
    return true;
  }

  /** `toNetUUID` equals the original under `Equals`. */
  method ToNetUuidEqualsOriginal(u: Uuid) returns (eq: bool)
    ensures eq
  {
    var copy := FromHalves(MostSignificantBits(u), LeastSignificantBits(u));
    FromOwnHalves(u);
    eq := Equals(u, Some(copy));
  }
}
