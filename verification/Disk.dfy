// The physical drive: an array of sectors whose transfers may fail.
module Disk {
  import opened Words

  class Drive {
    var sectors: seq<Sector>
    var ready: bool            // false: STA_NOINIT
    const reliable: bool       // no transfer of a sector of the drive fails

    constructor (s: seq<Sector>, r: bool)
      ensures sectors == s && ready && reliable == r
    {
      sectors, ready, reliable := s, true, r;
    }

    /** disk_initialize: whether the medium is there. */
    method Initialize() returns (up: bool)
      modifies `ready
      ensures up == ready && (reliable ==> up)
    {
      up := Attempt();
      ready := up;
    }

    /** Whether a transfer goes through. */
    method Attempt() returns (ok: bool)
      ensures reliable ==> ok
    {
      ok := *;
      ok := ok || reliable;
    }

    /** Read one sector into the start of buf; on failure buf holds anything. */
    method Read(buf: array<Byte>, sect: nat) returns (ok: bool)
      requires buf.Length == 512
      modifies buf
      ensures ok ==> sect < |sectors| && buf[..] == sectors[sect]
      ensures reliable && sect < |sectors| ==> ok
    {
      ok := Attempt();
      if !ok || sect >= |sectors| { return false; }
      var data := sectors[sect];
      forall i | 0 <= i < 512 { buf[i] := data[i]; }
    }

    /** Write one sector; a failed write leaves the medium as it was. */
    method Write(buf: array<Byte>, sect: nat) returns (ok: bool)
      requires buf.Length == 512
      modifies `sectors
      ensures |sectors| == |old(sectors)|
      ensures ok ==> sect < |sectors| && sectors == old(sectors)[sect := buf[..]]
      ensures !ok ==> sectors == old(sectors)
      ensures reliable && sect < |sectors| ==> ok
    {
      ok := Attempt();
      if !ok || sect >= |sectors| { return false; }
      sectors := sectors[sect := buf[..]];
    }

    /** Read cnt sectors to buf at offset off; on failure that part of buf holds anything. */
    method ReadRun(buf: array<Byte>, off: nat, sect: nat, cnt: nat) returns (ok: bool)
      requires off + cnt * 512 <= buf.Length
      modifies buf
      ensures ok ==> sect + cnt <= |sectors|
      ensures reliable && sect + cnt <= |sectors| ==> ok
      ensures ok ==> buf[off..off + cnt * 512] == RunBytes(sectors, sect, cnt)
      ensures forall j :: 0 <= j < buf.Length && !(off <= j < off + cnt * 512) ==> buf[j] == old(buf[j])
    {
      ok := Attempt();
      if !ok || sect + cnt > |sectors| { return false; }
      var data := RunBytes(sectors, sect, cnt);
      forall j | off <= j < off + cnt * 512 { buf[j] := data[j - off]; }
    }

    /** Write cnt consecutive sectors from data; after a failure those sectors hold anything. */
    method WriteRun(data: seq<Byte>, sect: nat, cnt: nat) returns (ok: bool)
      requires |data| == cnt * 512
      modifies `sectors
      ensures |sectors| == |old(sectors)|
      ensures ok ==> sect + cnt <= |sectors|
      ensures reliable && sect + cnt <= |sectors| ==> ok
      ensures ok ==> forall s :: sect <= s < sect + cnt ==>
        sectors[s] == data[(s - sect) * 512..(s - sect + 1) * 512]
      ensures forall s :: 0 <= s < |sectors| && !(sect <= s < sect + cnt) ==> sectors[s] == old(sectors)[s]
    {
      ok := Attempt();
      if !ok || sect + cnt > |sectors| { return false; }
      for k := 0 to cnt
        invariant |sectors| == |old(sectors)|
        invariant forall s :: sect <= s < sect + k ==>
          sectors[s] == data[(s - sect) * 512..(s - sect + 1) * 512]
        invariant forall s :: 0 <= s < |sectors| && !(sect <= s < sect + cnt) ==> sectors[s] == old(sectors)[s]
      {
        sectors := sectors[sect + k := data[k * 512..(k + 1) * 512]];
      }
    }
  }

  /** The bytes of cnt sectors, from sect on. */
  function RunBytes(sectors: seq<Sector>, sect: nat, cnt: nat): (r: seq<Byte>)
    requires sect + cnt <= |sectors|
    ensures |r| == cnt * 512
    ensures forall i :: 0 <= i < cnt * 512 ==> r[i] == sectors[sect + i / 512][i % 512]
  {
    seq(cnt * 512, i requires 0 <= i < cnt * 512 => sectors[sect + i / 512][i % 512])
  }
}
