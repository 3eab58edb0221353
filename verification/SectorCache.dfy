/**
 The KIM-1's write-back buffer of one host sector (src/arch/kim-1/kim-1.S:292-341,
 src/arch/kim-1/kim-1-k1013.S:16-253), with a host disk that does what it is told.
 */
module SectorCache {
  import opened Bytes

  type Record = r: seq<Byte> | |r| == 128 witness seq(128, _ => 0)
  type HostSector = h: seq<Byte> | |h| == 256 witness seq(256, _ => 0)

  const SECTORS_PER_TRACK: nat := 52     // of 128 bytes
  const INVALID: Byte := 0xff            // a track no sector is on

  /** Where a host sector is. */
  datatype Place = Place(drive: Byte, track: Byte, sector: Byte)

  /** What a program asks for. */
  datatype Address = Address(drive: Byte, number: Word)

  /** Sectors on tracks the buffer can tell from the invalid one. */
  predicate Valid(a: Address) { a.number < INVALID * SECTORS_PER_TRACK }

  function Track(n: Word): nat { n / 52 }

  function PlaceOf(a: Address): Place
  {
    Place(a.drive, ToByte(Track(a.number)), a.number % 52 / 2)
  }

  /** The half of the host sector the record is in. */
  function OffsetOf(a: Address): (r: Byte)
    ensures r == 0 || r == 0x80
  {
    a.number % 52 % 2 * 0x80
  }

  function Half(h: HostSector, offset: Byte): Record
    requires offset == 0 || offset == 0x80
  {
    h[offset..offset + 128]
  }

  /** Only the low byte of the track is kept, so place and half tell apart just the numbers up to 256 tracks. */
  lemma PlacesExactly(a: Address, b: Address)
    ensures PlaceOf(a) == PlaceOf(b) && OffsetOf(a) == OffsetOf(b)
       <==> a.drive == b.drive && a.number % (256 * SECTORS_PER_TRACK) == b.number % (256 * SECTORS_PER_TRACK)
  {
    NumberParts(a.number);
    NumberParts(b.number);
  }

  lemma NumberParts(n: Word)
    ensures var m: int := n % 13312;
            && ToByte(Track(n)) == m / 52 && n % 52 == m % 52
            && m == 52 * (m / 52) + 2 * (m % 52 / 2) + m % 52 % 2
  {
    var k: int, m: int := n / 13312, n % 13312;
    assert n == 13312 * k + m;
    assert (52 * (256 * k) + m) / 52 == 256 * k + m / 52;
    assert (52 * (256 * k) + m) % 52 == m % 52;
  }

  lemma OtherHalf(a: Address, b: Address)
    requires Valid(a) && Valid(b) && PlaceOf(a) == PlaceOf(b) && a != b
    ensures OffsetOf(a) == 0x80 - OffsetOf(b)
  {
    if OffsetOf(a) == OffsetOf(b) {
      PlacesExactly(a, b);
    }
  }

  /** Where a record's bytes are on the host disk, when nothing is buffered. */
  lemma HostLayout(host: imap<Place, HostSector>, none: Place, contents: HostSector, a: Address, i: nat)
    requires (forall p :: p in host) && none.track == INVALID && Valid(a) && i < 128
    ensures var disk, p := DiskOf(host, none, contents), Place(a.drive, a.number / 52, a.number % 52 / 2);
            a in disk && disk[a][i] == host[p][a.number % 2 * 128 + i]
  {
    ValidTrack(a);
    var n: int := a.number;
    assert n % 52 % 2 == n % 2 by { Parity(n); }
    var h := host[PlaceOf(a)];
    assert Half(h, OffsetOf(a))[i] == h[OffsetOf(a) + i];
  }

  lemma Parity(n: int)
    ensures n % 52 % 2 == n % 2
  {
    assert n == 2 * (26 * (n / 52)) + n % 52;
  }

  lemma ValidTrack(a: Address)
    requires Valid(a)
    ensures PlaceOf(a).track != INVALID
  {
  }

  // ---------- the division ----------

  /**
   After some steps, p being two to the power of their number: a is the remainder so far, and w holds
   the bits of n still to come and those of the quotient q.
   */
  predicate Dividing(n: int, p: int, w: int, a: int, q: int)
  {
    0 <= a < 52 && 0 <= q < p && w + 0x1_0000 * a + (52 * 0x1_0000 - 1) * q == p * n
  }

  /** One shift, and a subtraction if it is possible. */
  lemma DivideStep(n: int, p: int, w: int, a: int, q: int)
    requires Dividing(n, p, w, a, q) && 0 <= w < 0x1_0000
    ensures var bit := if w >= 0x8000 then 1 else 0;
            var s := if 2 * a + bit >= 52 then 1 else 0;
            Dividing(n, 2 * p, 2 * w - bit * 0x1_0000 + s, 2 * a + bit - 52 * s, 2 * q + s)
  {
    assert (2 * p) * n == 2 * (p * n);
  }

  /** In the end all bits of w are the quotient's. */
  lemma Divided(n: int, w: int, a: int, q: int)
    requires Dividing(n, 0x1_0000, w, a, q) && 0 <= w < 0x1_0000
    ensures w == n / 52 && a == n % 52
  {
    assert w - q == 0x1_0000 * (n - a - 52 * q);
    assert n == 52 * q + a;
  }

  /** `asl; rol; rol a` on the three bytes, and the subtraction that follows. */
  method ShiftSubtract(lo: Byte, hi: Byte, a: Byte) returns (lo': Byte, hi': Byte, a': Byte)
    requires a < 52
    ensures var bit := if hi >= 0x80 then 1 else 0;
            var shifted: int := 2 * a + bit;
            var w: int := Pair(lo, hi);
            && a' as int == (if shifted >= 52 then shifted - 52 else shifted)
            && Pair(lo', hi') as int == 2 * w - bit * 0x1_0000 + if shifted >= 52 then 1 else 0
  {
    var low: int := 2 * lo;
    lo' := ToByte(low);
    var middle: int := 2 * hi + if low >= 0x100 then 1 else 0;
    hi' := ToByte(middle);
    var top: int := 2 * a + if middle >= 0x100 then 1 else 0;
    a' := top;
    if top >= 52 {
      a' := top - 52;
      lo' := Inc(lo');
    }
  }

  /** The quotient's two bytes and the remainder. */
  method Divide(n: Word) returns (lo: Byte, hi: Byte, a: Byte)
    ensures Pair(lo, hi) == n / 52 && a == n % 52
  {
    lo, hi, a := Lo(n), Hi(n), 0;
    var x := 16;
    ghost var p, q := 1, 0;
    Sixteen();
    while true
      invariant 0 < x <= 16 && p * Power(x) == 0x1_0000 && Dividing(n, p, Pair(lo, hi), a, q)
      decreases x
    {
      hide Dividing, Pair;
      HighBit(lo, hi);
      DivideStep(n, p, Pair(lo, hi), a, q);
      PowerStep(p, x);
      ghost var a': int := a;
      q := 2 * q + if 2 * a' + (if hi >= 0x80 then 1 else 0) >= 52 then 1 else 0;
      lo, hi, a := ShiftSubtract(lo, hi, a);
      p := 2 * p;
      x := x - 1;
      if x == 0 {
        break;
      }
    }
    Divided(n, Pair(lo, hi), a, q);
  }

  function Power(x: nat): (r: int)
  {
    if x == 0 then 1 else 2 * Power(x - 1)
  }

  lemma PowerStep(p: int, x: nat)
    requires x > 0
    ensures 2 * p * Power(x - 1) == p * Power(x)
  {
  }

  lemma Sixteen()
    ensures Power(16) == 0x1_0000
  {
    assert Power(4) == 16;
    assert Power(8) == 0x100;
    assert Power(12) == 0x1000;
  }

  lemma HighBit(lo: Byte, hi: Byte)
    ensures hi >= 0x80 <==> Pair(lo, hi) >= 0x8000
  {
  }

  // ---------- the plain disk ----------

  /** The records programs see: those in the buffer as they are there, the others as on the host disk. */
  ghost function DiskOf(host: imap<Place, HostSector>, buffered: Place, contents: HostSector): imap<Address, Record>
    requires forall p :: p in host
  {
    imap a: Address | Valid(a) :: Half(if PlaceOf(a) == buffered then contents else host[PlaceOf(a)], OffsetOf(a))
  }

  lemma Flushed(host: imap<Place, HostSector>, b: Place, contents: HostSector)
    requires forall p :: p in host
    ensures DiskOf(host[b := contents], b, contents) == DiskOf(host, b, contents)
  {
    hide Half, PlaceOf, OffsetOf, Valid;
  }

  /** A buffer that holds nothing new can be given up for another sector. */
  lemma Replaced(host: imap<Place, HostSector>, b: Place, contents: HostSector, next: Place)
    requires forall p :: p in host
    requires b.track == INVALID || host[b] == contents
    ensures DiskOf(host, next, host[next]) == DiskOf(host, b, contents)
  {
    hide Half, PlaceOf, OffsetOf, Valid;
    forall a: Address | Valid(a)
      ensures PlaceOf(a) != b || host[PlaceOf(a)] == contents
    {
      ValidTrack(a);
    }
  }

  /** With a new record in the buffer, the disk has changed in that record alone. */
  lemma Stored(host: imap<Place, HostSector>, b: Address, was: HostSector, contents: HostSector, data: Record)
    requires (forall p :: p in host) && Valid(b)
    requires Half(contents, OffsetOf(b)) == data
    requires Half(contents, 0x80 - OffsetOf(b)) == Half(was, 0x80 - OffsetOf(b))
    ensures DiskOf(host, PlaceOf(b), contents) == DiskOf(host, PlaceOf(b), was)[b := data]
  {
    hide Half, PlaceOf, OffsetOf, Valid;
    forall a: Address | Valid(a)
      ensures DiskOf(host, PlaceOf(b), contents)[a] == DiskOf(host, PlaceOf(b), was)[b := data][a]
    {
      if PlaceOf(a) == PlaceOf(b) && a != b {
        OtherHalf(a, b);
      }
    }
  }

  lemma HalvesApart(was: HostSector, h: HostSector, offset: Byte, data: Record)
    requires offset == 0 || offset == 0x80
    requires h[offset..offset + 128] == data && h[..offset] == was[..offset] && h[offset + 128..] == was[offset + 128..]
    ensures Half(h, offset) == data && Half(h, 0x80 - offset) == Half(was, 0x80 - offset)
  {
    if offset == 0 {
      assert Half(h, 0x80) == h[128..] == was[128..] == Half(was, 0x80);
    } else {
      assert Half(h, 0) == h[..0x80] == was[..0x80] == Half(was, 0);
    }
  }

  lemma InBuffer(host: imap<Place, HostSector>, a: Address, contents: HostSector)
    requires (forall p :: p in host) && Valid(a)
    ensures DiskOf(host, PlaceOf(a), contents)[a] == Half(contents, OffsetOf(a))
  {
    hide Half, PlaceOf, OffsetOf, Valid;
  }

  lemma PlaceSet(drive: Byte, n: Word, lo: Byte, hi: Byte, a: Byte)
    requires Pair(lo, hi) == n / 52 && a == n % 52
    ensures PlaceOf(Address(drive, n)) == Place(drive, lo, a / 2)
    ensures OffsetOf(Address(drive, n)) == if a % 2 == 1 then 0x80 else 0
  {
    LowOf(lo, hi);
  }

  lemma DriveOnly(drive: Byte, other: Byte, n: Word)
    ensures PlaceOf(Address(other, n)) == PlaceOf(Address(drive, n)).(drive := other)
    ensures OffsetOf(Address(other, n)) == OffsetOf(Address(drive, n))
  {
  }

  lemma LowOf(lo: Byte, hi: Byte)
    ensures ToByte(Pair(lo, hi)) == lo
  {
  }

  // ---------- what programs ask for ----------

  datatype Request =
    | SelectDrive(drive: Byte, ready: bool)
    | SetSector(n: Word)
    | ReadRecord
    | WriteRecord(data: Record, flush: Byte)

  /** The address after a request. */
  function NextAddress(at: Address, r: Request): Address
  {
    match r
    case SelectDrive(drive, ready) => if drive < 4 && ready then at.(drive := drive) else at
    case SetSector(n) => at.(number := n)
    case _ => at
  }

  /** No record on the last track or beyond is asked for. */
  ghost predicate AllValid(at: Address, requests: seq<Request>)
    decreases |requests|
  {
    requests == [] ||
    ((requests[0].ReadRecord? || requests[0].WriteRecord? ==> Valid(at)) && AllValid(NextAddress(at, requests[0]), requests[1..]))
  }

  /** What a plain disk would be afterwards. */
  ghost function PlainDisk(disk: imap<Address, Record>, at: Address, requests: seq<Request>): imap<Address, Record>
    decreases |requests|
  {
    if requests == [] then disk
    else
      PlainDisk(if requests[0].WriteRecord? then disk[at := requests[0].data] else disk,
                NextAddress(at, requests[0]), requests[1..])
  }

  /** And what it would have answered to the reads. */
  ghost function PlainAnswers(disk: imap<Address, Record>, at: Address, requests: seq<Request>): seq<Record>
    requires (forall a: Address :: Valid(a) ==> a in disk) && AllValid(at, requests)
    decreases |requests|
  {
    if requests == [] then []
    else
      (if requests[0].ReadRecord? then [disk[at]] else [])
      + PlainAnswers(if requests[0].WriteRecord? then disk[at := requests[0].data] else disk,
                     NextAddress(at, requests[0]), requests[1..])
  }

  // ---------- the driver ----------

  class Driver {
    const buffer: array<Byte>
    var host: imap<Place, HostSector>
    var selectedDrive: Byte
    var requestedTrack: Byte
    var requestedCpmSector: Byte
    var bufferOffset: Byte
    var bufferedDrive: Byte
    var bufferedTrack: Byte
    var bufferedHostSector: Byte
    var bufferDirty: Byte
    ghost var number: Word      // the CP/M sector last set

    /** system_init; the other variables start out as anything. */
    constructor (disk: imap<Place, HostSector>)
      requires forall p :: p in disk
      ensures Inv() && host == disk && bufferedTrack == INVALID && selectedDrive == 0 && fresh(buffer)
    {
      buffer := new Byte[256];
      host := disk;
      selectedDrive := 0;
      bufferedTrack := INVALID;
      bufferDirty := 0;
      requestedTrack, requestedCpmSector, bufferOffset := 0, 0, 0;
      bufferedDrive, bufferedHostSector := *, *;
      number := 0;
    }

    function Requested(): Place reads this { Place(selectedDrive, requestedTrack, requestedCpmSector) }

    function Buffered(): Place reads this { Place(bufferedDrive, bufferedTrack, bufferedHostSector) }

    ghost function Current(): Address reads this { Address(selectedDrive, number) }

    ghost predicate Inv()
      reads this, buffer
    {
      && buffer.Length == 256 && (forall p :: p in host)
      && Requested() == PlaceOf(Current()) && bufferOffset == OffsetOf(Current())
      && (bufferDirty >= 0x80 ==> bufferedTrack != INVALID)
      && (bufferDirty < 0x80 && bufferedTrack != INVALID ==> host[Buffered()] == buffer[..])
    }

    /** The plain disk that programs see. */
    ghost function Disk(): imap<Address, Record>
      reads this, buffer
      requires Inv()
    {
      DiskOf(host, Buffered(), buffer[..])
    }

    /** bios_SELDSK; a drive that is not there is not selected. */
    method Select(drive: Byte, ready: bool) returns (ok: bool)
      requires Inv()
      modifies this`selectedDrive
      ensures Inv() && Disk() == old(Disk()) && ok == (drive < 4 && ready)
      ensures Current() == if ok then Address(drive, number) else old(Current())
    {
      if drive >= 4 || !ready {
        return false;
      }
      DriveOnly(selectedDrive, drive, number);
      hide PlaceOf, OffsetOf, DiskOf;
      selectedDrive := drive;
      ok := true;
    }

    /** bios_SETSEC */
    method SetSec(n: Word)
      requires Inv()
      modifies this`requestedTrack, this`requestedCpmSector, this`bufferOffset, this`number
      ensures Inv() && Disk() == old(Disk()) && Current() == Address(selectedDrive, n)
    {
      hide PlaceOf, OffsetOf, DiskOf;
      var lo, hi, a := Divide(n);
      PlaceSet(selectedDrive, n, lo, hi, a);
      requestedCpmSector := a / 2;
      bufferOffset := if a % 2 == 1 then 0x80 else 0;
      requestedTrack := lo;
      number := n;
    }

    method FlushBuffer()
      requires Inv() && bufferDirty >= 0x80
      modifies this`host, this`bufferDirty
      ensures Inv() && Disk() == old(Disk()) && bufferDirty == 0
      ensures host == old(host)[Buffered() := buffer[..]]
    {
      Flushed(host, Buffered(), buffer[..]);
      hide DiskOf;
      host := host[Buffered() := buffer[..]];
      bufferDirty := 0;
    }

    /** change_sector: the requested host sector is in the buffer. */
    method ChangeSector()
      requires Inv() && Valid(Current())
      modifies this`host, this`bufferDirty, this`bufferedDrive, this`bufferedTrack, this`bufferedHostSector, buffer
      ensures Inv() && Disk() == old(Disk()) && Buffered() == Requested() && bufferedTrack != INVALID
    {
      ValidTrack(Current());
      hide PlaceOf, OffsetOf, Half, Valid, DiskOf;
      if requestedCpmSector == bufferedHostSector && requestedTrack == bufferedTrack && selectedDrive == bufferedDrive {
        return;
      }
      if bufferDirty >= 0x80 {
        FlushBuffer();
      }
      Replaced(host, Buffered(), buffer[..], Requested());
      bufferedDrive := selectedDrive;
      bufferedTrack := requestedTrack;
      bufferedHostSector := requestedCpmSector;
      var h := host[Buffered()];
      forall i | 0 <= i < 256 {
        buffer[i] := h[i];
      }
      assert buffer[..] == h;
    }

    /** bios_READ */
    method Read(dma: array<Byte>)
      requires Inv() && Valid(Current()) && dma.Length == 128 && dma != buffer
      modifies this`host, this`bufferDirty, this`bufferedDrive, this`bufferedTrack, this`bufferedHostSector, buffer, dma
      ensures Inv() && Disk() == old(Disk())
      ensures dma[..] == Disk()[Current()]
    {
      hide PlaceOf, OffsetOf, DiskOf;
      ChangeSector();
      CopyOut(dma);
      InBuffer(host, Current(), buffer[..]);
    }

    method CopyOut(dma: array<Byte>)
      requires buffer.Length == 256 && bufferOffset <= 0x80 && dma.Length == 128 && dma != buffer
      modifies dma
      ensures dma[..] == buffer[bufferOffset..bufferOffset + 128]
    {
      var y := 0x7f;
      while true
        invariant 0 <= y < 128
        invariant forall k :: y < k < 128 ==> dma[k] == buffer[bufferOffset + k]
        decreases y
      {
        dma[y] := buffer[bufferOffset + y];
        if y == 0 {
          break;
        }
        y := y - 1;
      }
      assert dma[..] == buffer[bufferOffset..bufferOffset + 128];
    }

    method CopyIn(dma: array<Byte>)
      requires buffer.Length == 256 && bufferOffset <= 0x80 && dma.Length == 128 && dma != buffer
      modifies buffer
      ensures buffer[bufferOffset..bufferOffset + 128] == dma[..]
      ensures buffer[..bufferOffset] == old(buffer[..bufferOffset])
      ensures buffer[bufferOffset + 128..] == old(buffer[bufferOffset + 128..])
    {
      var y := 0x7f;
      while true
        invariant 0 <= y < 128
        invariant forall k :: y < k < 128 ==> buffer[bufferOffset + k] == dma[k]
        invariant buffer[..bufferOffset] == old(buffer[..bufferOffset])
        invariant buffer[bufferOffset + 128..] == old(buffer[bufferOffset + 128..])
        decreases y
      {
        buffer[bufferOffset + y] := dma[y];
        if y == 0 {
          break;
        }
        y := y - 1;
      }
      assert buffer[bufferOffset..bufferOffset + 128] == dma[..];
    }

    /** bios_WRITE; a nonzero argument asks for the host disk to be brought up to date. */
    method Write(dma: array<Byte>, a: Byte)
      requires Inv() && Valid(Current()) && dma.Length == 128 && dma != buffer
      modifies this`host, this`bufferDirty, this`bufferedDrive, this`bufferedTrack, this`bufferedHostSector, buffer
      ensures Inv() && Disk() == old(Disk())[Current() := dma[..]]
      ensures a != 0 ==> bufferDirty == 0 && host[PlaceOf(Current())] == buffer[..]
                         && Half(host[PlaceOf(Current())], OffsetOf(Current())) == dma[..]
    {
      hide PlaceOf, OffsetOf, Valid, DiskOf, Half;
      ChangeSector();
      ghost var was := buffer[..];
      CopyIn(dma);
      bufferDirty := 0x80;
      HalvesApart(was, buffer[..], bufferOffset, dma[..]);
      Stored(host, Current(), was, buffer[..], dma[..]);
      InBuffer(host, Current(), buffer[..]);
      if a != 0 {
        FlushBuffer();
      }
    }

    method ServeOne(r: Request) returns (answer: seq<Record>)
      requires Inv() && (r.ReadRecord? || r.WriteRecord? ==> Valid(Current()))
      requires forall a: Address :: Valid(a) ==> a in Disk()
      modifies this, buffer
      ensures Inv() && Current() == NextAddress(old(Current()), r)
      ensures Disk() == if r.WriteRecord? then old(Disk())[old(Current()) := r.data] else old(Disk())
      ensures answer == if r.ReadRecord? then [old(Disk())[old(Current())]] else []
    {
      hide DiskOf, Valid, PlaceOf, OffsetOf;
      answer := [];
      match r {
        case SelectDrive(drive, ready) =>
          var ok := Select(drive, ready);
        case SetSector(n) =>
          SetSec(n);
        case ReadRecord =>
          var dma := new Byte[128];
          Read(dma);
          answer := [dma[..]];
        case WriteRecord(data, flush) =>
          var dma := new Byte[128](k requires 0 <= k < 128 => data[k]);
          assert dma[..] == data;
          Write(dma, flush);
      }
    }

    /** Any run of requests: the answers and the disk are a plain disk's. */
    method Serve(requests: seq<Request>) returns (answers: seq<Record>)
      requires Inv() && AllValid(Current(), requests)
      modifies this, buffer
      ensures Inv() && answers == PlainAnswers(old(Disk()), old(Current()), requests)
      ensures Disk() == PlainDisk(old(Disk()), old(Current()), requests)
    {
      hide DiskOf, Valid, PlaceOf, OffsetOf;
      answers := [];
      var i := 0;
      assert requests[0..] == requests;
      WholeDisk();
      while i < |requests|
        invariant 0 <= i <= |requests| && Inv() && AllValid(Current(), requests[i..])
        invariant forall a: Address :: Valid(a) ==> a in Disk()
        invariant PlainAnswers(old(Disk()), old(Current()), requests)
               == answers + PlainAnswers(Disk(), Current(), requests[i..])
        invariant PlainDisk(old(Disk()), old(Current()), requests) == PlainDisk(Disk(), Current(), requests[i..])
        decreases |requests| - i
      {
        assert requests[i..][0] == requests[i] && requests[i..][1..] == requests[i + 1..];
        var answer := ServeOne(requests[i]);
        answers := answers + answer;
        WholeDisk();
        i := i + 1;
      }
      assert requests[i..] == [];
    }

    lemma WholeDisk()
      requires Inv()
      ensures forall a: Address :: Valid(a) ==> a in Disk()
    {
    }
  }
}
