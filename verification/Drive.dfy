/** The storage driver of diskio.c: a RAM disk of sectors.
    A transfer succeeds exactly when it lies inside the disk. */
module DriveModel {
  import opened Bytes

  datatype DResult = RES_OK | RES_PARERR

  /** Sector number k of a transfer buffer. */
  function Piece(data: seq<byte>, k: nat): Sector
    requires (k + 1) * SS <= |data|
  {
    data[k * SS..(k + 1) * SS]
  }

  class Drive {
    var sectors: seq<Sector>

    predicate InRange(sector: nat, count: nat)
      reads this
    {
      sector < |sectors| && sector + count <= |sectors|
    }

    constructor (image: seq<Sector>)
      ensures sectors == image
    {
      sectors := image;
    }

    /** disk_read: copies count sectors to buff, starting at offset off of buff. */
    method Read(buff: array<byte>, off: nat, sector: nat, count: nat) returns (res: DResult)
      requires off + count * SS <= buff.Length
      modifies buff
      ensures res == if InRange(sector, count) then RES_OK else RES_PARERR
      ensures res == RES_OK ==>
        forall i | off <= i < off + count * SS :: buff[i] == sectors[sector + (i - off) / SS][(i - off) % SS]
      ensures forall i | 0 <= i < buff.Length && !(res == RES_OK && off <= i < off + count * SS) :: buff[i] == old(buff[i])
    {
      if !InRange(sector, count) {
        return RES_PARERR;
      }
      forall i | off <= i < off + count * SS {
        buff[i] := sectors[sector + (i - off) / SS][(i - off) % SS];
      }
      return RES_OK;
    }

    /** disk_write: replaces count sectors by the bytes of data. */
    method Write(data: seq<byte>, sector: nat, count: nat) returns (res: DResult)
      requires |data| == count * SS
      modifies this
      ensures res == if old(InRange(sector, count)) then RES_OK else RES_PARERR
      ensures |sectors| == |old(sectors)|
      ensures res == RES_OK ==>
        forall s | sector <= s < sector + count :: sectors[s] == Piece(data, s - sector)
      ensures forall s | 0 <= s < |sectors| && !(res == RES_OK && sector <= s < sector + count) ::
        sectors[s] == old(sectors)[s]
    {
      if !InRange(sector, count) {
        return RES_PARERR;
      }
      for k := 0 to count
        invariant |sectors| == |old(sectors)|
        invariant forall s | sector <= s < sector + k :: sectors[s] == Piece(data, s - sector)
        invariant forall s | 0 <= s < |sectors| && !(sector <= s < sector + k) :: sectors[s] == old(sectors)[s]
      {
        sectors := sectors[sector + k := Piece(data, k)];
      }
      return RES_OK;
    }
  }
}
