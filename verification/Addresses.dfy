/** Base58 strings with a checksum, and the addresses written with them (src/base58.cpp). */
module Addresses {
  import opened Base58
  import opened Options
  import opened Radix

  /** A 256-bit hash, as a number. */
  type Hash = Bytes -> nat

  /** The first four bytes of the hash in memory. */
  function Checksum(hash: Hash, v: Bytes): (c: Bytes)
    ensures |c| == 4 && AreBytes(c)
  {
    var h := hash(v);
    [h % 256, h / 0x100 % 256, h / 0x1_0000 % 256, h / 0x100_0000 % 256]
  }

  /** What a string with a checksum decodes to. */
  ghost function Checked(hash: Hash, str: string): Option<Bytes> {
    var b := WordBytes(Trimmed(str));
    if Decodable(str) && |b| >= 4 && b[|b| - 4..] == Checksum(hash, b[..|b| - 4]) then Some(b[..|b| - 4]) else None
  }

  method EncodeBase58Check(hash: Hash, v: Bytes) returns (str: string)
    requires AreBytes(v)
    ensures str == Encoded(v + Checksum(hash, v))
  {
    str := EncodeBase58(v + Checksum(hash, v));
  }

  method DecodeBase58Check(hash: Hash, str: string) returns (r: Option<Bytes>)
    ensures r == Checked(hash, str)
  {
    hide Decodable, WordBytes, Trimmed, Checksum;
    r := DecodeBase58(str);
    if r.None? || |r.value| < 4 { return None; }
    var n := |r.value| - 4;
    if r.value[n..] != Checksum(hash, r.value[..n]) { return None; }
    return Some(r.value[..n]);
  }

  lemma CheckedEncoded(hash: Hash, v: Bytes)
    requires AreBytes(v)
    ensures Checked(hash, Encoded(v + Checksum(hash, v))) == Some(v)
  {
    hide Decodable, WordBytes, Trimmed, Encoded, Checksum;
    var b := v + Checksum(hash, v);
    DecodeEncoded(b);
    assert b[..|b| - 4] == v && b[|b| - 4..] == Checksum(hash, v);
  }

  lemma EncodedChecked(hash: Hash, str: string)
    requires Checked(hash, str).Some?
    ensures var v := Checked(hash, str).value; AreBytes(v) && Encoded(v + Checksum(hash, v)) == Trimmed(str)
  {
    hide Decodable, WordBytes, Trimmed, Encoded, Checksum;
    var b := WordBytes(Trimmed(str));
    EncodeDecoded(str, b);
    assert b == b[..|b| - 4] + b[|b| - 4..];
  }

  // Destinations

  datatype Destination = NoDestination | KeyID(id: Bytes) | ScriptID(id: Bytes) | Offline(first: Bytes, second: Bytes)

  ghost predicate IsId(id: Bytes) { |id| == 20 && AreBytes(id) }

  ghost predicate IsDestination(d: Destination) {
    match d
    case NoDestination => true
    case KeyID(id) => IsId(id)
    case ScriptID(id) => IsId(id)
    case Offline(first, second) => IsId(first) && IsId(second)
  }

  datatype Prefixes = Prefixes(pubkey: Bytes, script: Bytes, offline: Bytes)

  ghost predicate Distinct(p: Prefixes) { p.pubkey != p.script && p.pubkey != p.offline && p.script != p.offline }

  ghost predicate OneByte(p: Prefixes) {
    |p.pubkey| == |p.script| == |p.offline| == 1 && AreBytes(p.pubkey) && AreBytes(p.script) && AreBytes(p.offline)
  }

  function VersionOf(p: Prefixes, d: Destination): Bytes {
    match d
    case NoDestination => []
    case KeyID(_) => p.pubkey
    case ScriptID(_) => p.script
    case Offline(_, _) => p.offline
  }

  function DataOf(d: Destination): Bytes {
    match d
    case NoDestination => []
    case KeyID(id) => id
    case ScriptID(id) => id
    case Offline(first, second) => first + second
  }

  predicate IsValid(p: Prefixes, version: Bytes, data: Bytes) {
    if version == p.offline then |data| == 40
    else |data| == 20 && (version == p.pubkey || version == p.script)
  }

  function Destined(p: Prefixes, version: Bytes, data: Bytes): Destination {
    if !IsValid(p, version, data) then NoDestination
    else if version == p.offline then Offline(data[..20], data[20..40])
    else if version == p.pubkey then KeyID(data[..20])
    else if version == p.script then ScriptID(data[..20])
    else NoDestination
  }

  /** Every destination can be told from its version and its data when the prefixes differ. */
  lemma Survives(p: Prefixes, d: Destination)
    requires IsDestination(d) && d != NoDestination && Distinct(p)
    ensures Destined(p, VersionOf(p, d), DataOf(d)) == d
  {
    match d
    case KeyID(id) => assert id[..20] == id;
    case ScriptID(id) => assert id[..20] == id;
    case Offline(first, second) => assert (first + second)[..20] == first && (first + second)[20..40] == second;
  }

  /** Otherwise some destination cannot. */
  lemma SurvivesOnlyIf(p: Prefixes)
    requires !Distinct(p)
    ensures exists d :: IsDestination(d) && d != NoDestination && Destined(p, VersionOf(p, d), DataOf(d)) != d
  {
    var id: Bytes := seq(20, _ => 0);
    assert IsId(id);
    var d := if p.pubkey == p.offline then KeyID(id) else ScriptID(id);
    assert IsDestination(d) && d != NoDestination && Destined(p, VersionOf(p, d), DataOf(d)) != d;
  }

  class Address {
    const params: Prefixes
    const hash: Hash
    var vchVersion: Bytes
    var vchData: Bytes

    constructor (params: Prefixes, hash: Hash)
      ensures this.params == params && this.hash == hash && vchVersion == [] && vchData == []
    {
      this.params, this.hash := params, hash;
      vchVersion, vchData := [], [];
    }

    method SetData(version: Bytes, data: Bytes, data2: Bytes)
      modifies this
      ensures vchVersion == version && vchData == data + data2
    {
      vchVersion := version;
      vchData := data + data2;
    }

    method Set(d: Destination) returns (ok: bool)
      modifies this
      ensures ok <==> d != NoDestination
      ensures ok ==> vchVersion == VersionOf(params, d) && vchData == DataOf(d)
      ensures !ok ==> vchVersion == old(vchVersion) && vchData == old(vchData)
    {
      ok := d != NoDestination;
      match d {
        case NoDestination =>
        case KeyID(id) => SetData(params.pubkey, id, []);
        case ScriptID(id) => SetData(params.script, id, []);
        case Offline(first, second) => SetData(params.offline, first, second);
      }
    }

    method SetString(str: string, nVersionBytes: nat) returns (ok: bool)
      modifies this
      ensures ok <==> Checked(hash, str).Some? && |Checked(hash, str).value| >= nVersionBytes
      ensures ok ==> vchVersion + vchData == Checked(hash, str).value && |vchVersion| == nVersionBytes
      ensures !ok ==> vchVersion == vchData == []
    {
      hide Checked;
      var r := DecodeBase58Check(hash, str);
      if r.None? || |r.value| < nVersionBytes {
        vchVersion, vchData := [], [];
        return false;
      }
      vchVersion := r.value[..nVersionBytes];
      vchData := r.value[nVersionBytes..];
      return true;
    }

    method ToString() returns (str: string)
      requires AreBytes(vchVersion) && AreBytes(vchData)
      ensures str == Encoded(vchVersion + vchData + Checksum(hash, vchVersion + vchData))
    {
      str := EncodeBase58Check(hash, vchVersion + vchData);
    }

    method Get() returns (d: Destination)
      ensures d == Destined(params, vchVersion, vchData)
    {
      d := Destined(params, vchVersion, vchData);
    }
  }

  /** An address written and read back is the same destination, when the prefixes are distinct single bytes. */
  method WriteAndRead(params: Prefixes, hash: Hash, d: Destination) returns (back: Destination)
    requires OneByte(params) && Distinct(params) && IsDestination(d) && d != NoDestination
    ensures back == d
  {
    hide Checked, Encoded, Checksum;
    var written := new Address(params, hash);
    var _ := written.Set(d);
    var str := written.ToString();
    CheckedEncoded(hash, VersionOf(params, d) + DataOf(d));
    var read := new Address(params, hash);
    var _ := read.SetString(str, 1);
    assert read.vchVersion == VersionOf(params, d) by {
      assert (read.vchVersion + read.vchData)[..1] == read.vchVersion;
    }
    assert read.vchData == DataOf(d) by { assert (read.vchVersion + read.vchData)[1..] == read.vchData; }
    back := read.Get();
    Survives(params, d);
  }
}
