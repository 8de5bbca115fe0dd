/** The sysfs files of a RapidIO device: the "config" file, whose reads
    and writes are split into naturally aligned 8, 16 and 32-bit
    maintenance accesses packed big-endian; the "memory" file over the
    device's address window; the choice of that window's size; and the
    switch route table listing. The bus accesses themselves are recorded,
    not carried out. */
module RioSysfs {
  import opened Kernel

  /** Size of the config file: 16 MB, a 21-bit double-word address. */
  const RIO_CONFIG_SIZE: nat := 0x100_0000
  /** What a caller without CAP_SYS_ADMIN may read of config space. */
  const RIO_SAFE_CONFIG_SIZE: nat := 0x100

  // Extended addressing bits of the processing element features register.
  const RIO_PEF_ADDR_66: bv32 := 4
  const RIO_PEF_ADDR_50: bv32 := 2
  const RIO_PEF_ADDR_34: bv32 := 1

  /** A route table entry with no route. */
  const RIO_INVALID_ROUTE: u8 := 0xff

  /** Route table entries: 256 with 8-bit device IDs, 65536 with 16-bit. */
  function MaxRouteEntries(largeSys: bool): (n: nat)
    ensures n == if largeSys then 0x1_0000 else 0x100
  {
    if largeSys then 0x1_0000 else 0x100
  }

  /** The width in bytes of a maintenance access. */
  type Width = w: nat | w == 1 || w == 2 || w == 4 witness 1

  /** One maintenance access: its width and its config offset. */
  datatype Access = Access(width: Width, off: nat)

  /** What the device sees of the files' activity. */
  datatype BusOp =
    | ConfigRead(width: Width, off: nat)
    | ConfigWrite(width: Width, off: nat, val: nat)
    | MemoryRead(off: nat, len: nat)
    | MemoryWrite(off: nat, data: seq<u8>)

  /** The contents of a device's memory window, byte by byte. */
  type Window = nat -> u8

  /** The sysfs files a device can have. */
  datatype SysfsFile = ConfigFile | RoutesFile | MemoryFile

  /** A value a maintenance read of width w can return. */
  function Pow256(w: Width): (p: nat)
    ensures p == if w == 1 then 0x100 else if w == 2 then 0x1_0000 else 0x1_0000_0000
  {
    if w == 1 then 0x100 else if w == 2 then 0x1_0000 else 0x1_0000_0000
  }

  /** Reads of config space: the value a read of each width and offset
      returns, which fits the access's width. */
  type ConfigSpace = (Width, nat) -> nat

  ghost predicate ReadsFit(read: ConfigSpace)
  {
    forall w: Width, o: nat :: read(w, o) < Pow256(w)
  }

  // ---------------------------------------------------------------------
  // Byte packing

  /** The w bytes of v, most significant first. */
  function BeBytes(v: nat, w: Width): (bs: seq<u8>)
    ensures |bs| == w
  {
    if w == 1 then [v % 0x100]
    else if w == 2 then [(v / 0x100) % 0x100, v % 0x100]
    else [(v / 0x100_0000) % 0x100, (v / 0x1_0000) % 0x100, (v / 0x100) % 0x100, v % 0x100]
  }

  /** The value of 1, 2 or 4 bytes read most significant first. */
  function BeValue(bs: seq<u8>): (v: nat)
    requires |bs| == 1 || |bs| == 2 || |bs| == 4
    ensures v < Pow256(|bs|)
  {
    if |bs| == 1 then bs[0]
    else if |bs| == 2 then bs[0] as int * 0x100 + bs[1]
    else bs[0] as int * 0x100_0000 + bs[1] as int * 0x1_0000 + bs[2] as int * 0x100 + bs[3]
  }

  /** Packing a value's bytes back gives the value. */
  lemma BeValueOfBytes(v: nat, w: Width)
    requires v < Pow256(w)
    ensures BeValue(BeBytes(v, w)) == v
  {
    if w == 2 {
      DivMod(v, 0x100);
    } else if w == 4 {
      var q1, q2, q3 := v / 0x100, v / 0x1_0000, v / 0x100_0000;
      DivMod(v, 0x100);
      DivMod(q1, 0x100);
      DivMod(q2, 0x100);
      assert q2 == q1 / 0x100 && q3 == q2 / 0x100;
      assert q3 < 0x100;
    }
  }

  /** Unpacking the value of some bytes gives the bytes. */
  lemma BeBytesOfValue(bs: seq<u8>)
    requires |bs| == 1 || |bs| == 2 || |bs| == 4
    ensures BeBytes(BeValue(bs), |bs|) == bs
  {
    if |bs| == 2 {
      DivModOf(bs[0], bs[1]);
    } else if |bs| == 4 {
      var v := BeValue(bs);
      var hi2: nat := bs[0] as int * 0x100 + bs[1];
      var hi3: nat := hi2 * 0x100 + bs[2];
      assert v == hi3 * 0x100 + bs[3];
      DivModOf(hi3, bs[3]);
      DivModOf(hi2, bs[2]);
      DivModOf(bs[0], bs[1]);
      DivDiv(v);
    }
  }

  lemma DivMod(v: nat, d: nat)
    requires d > 0
    ensures v == (v / d) * d + v % d
  {
  }

  lemma DivModOf(q: nat, r: nat)
    requires r < 0x100
    ensures (q * 0x100 + r) / 0x100 == q && (q * 0x100 + r) % 0x100 == r
  {
  }

  lemma DivDiv(v: nat)
    ensures v / 0x100 / 0x100 == v / 0x1_0000
    ensures v / 0x1_0000 / 0x100 == v / 0x100_0000
  {
    DivMod(v, 0x100);
    DivMod(v / 0x100, 0x100);
    DivMod(v / 0x100 / 0x100, 0x100);
  }

  // ---------------------------------------------------------------------
  // The access plan

  /** How rio_read_config and rio_write_config split size bytes at off:
      a byte to reach an even offset, a half-word to reach a word
      boundary, words, then a half-word and a byte for what is left. */
  function Plan(off: nat, size: nat): (p: seq<Access>)
  {
    if off % 2 == 1 && size > 0 then [Access(1, off)] + AfterByte(off + 1, size - 1)
    else AfterByte(off, size)
  }

  function AfterByte(off: nat, size: nat): (p: seq<Access>)
  {
    if off % 4 != 0 && size > 2 then [Access(2, off)] + Words(off + 2, size - 2)
    else Words(off, size)
  }

  function Words(off: nat, size: nat): (p: seq<Access>)
    decreases size
  {
    if size > 3 then [Access(4, off)] + Words(off + 4, size - 4)
    else Tail(off, size)
  }

  function Tail(off: nat, size: nat): (p: seq<Access>)
  {
    if size >= 2 then [Access(2, off)] + (if size > 2 then [Access(1, off + 2)] else [])
    else if size > 0 then [Access(1, off)]
    else []
  }

  /** p covers [off, off + n) from left to right, each access starting
      where the one before ended, with no gap and no overlap. */
  ghost predicate Tiles(p: seq<Access>, off: nat, n: nat)
    decreases |p|
  {
    if |p| == 0 then n == 0
    else
      && p[0].off == off && p[0].width <= n
      && Tiles(p[1..], off + p[0].width, n - p[0].width)
  }

  /** Every half-word access is at an even offset and every word access
      at a multiple of four. */
  ghost predicate Aligned(p: seq<Access>)
  {
    forall k :: 0 <= k < |p| ==> IsAligned(p[k])
  }

  ghost predicate IsAligned(a: Access)
  {
    match a.width
    case 1 => true
    case 2 => a.off % 2 == 0
    case 4 => a.off % 4 == 0
  }

  lemma {:induction false} TilesConcat(p: seq<Access>, q: seq<Access>, off: nat, m: nat, n: nat)
    requires Tiles(p, off, m) && Tiles(q, off + m, n)
    ensures Tiles(p + q, off, m + n)
    decreases |p|
  {
    if |p| == 0 {
      assert p + q == q;
    } else {
      assert (p + q)[1..] == p[1..] + q;
      TilesConcat(p[1..], q, off + p[0].width, m - p[0].width, n);
    }
  }

  lemma {:induction false} WordsTile(off: nat, size: nat)
    ensures Tiles(Words(off, size), off, size)
    decreases size
  {
    if size > 3 {
      WordsTile(off + 4, size - 4);
      TilesConcat([Access(4, off)], Words(off + 4, size - 4), off, 4, size - 4);
    } else if size >= 2 {
      var rest := if size > 2 then [Access(1, off + 2)] else [];
      assert Tiles(rest, off + 2, size - 2);
      TilesConcat([Access(2, off)], rest, off, 2, size - 2);
    }
  }

  /** The plan covers exactly the bytes asked for, in order. */
  lemma PlanTiles(off: nat, size: nat)
    ensures Tiles(Plan(off, size), off, size)
  {
    if off % 2 == 1 && size > 0 {
      AfterByteTiles(off + 1, size - 1);
      TilesConcat([Access(1, off)], AfterByte(off + 1, size - 1), off, 1, size - 1);
    } else {
      AfterByteTiles(off, size);
    }
  }

  lemma AfterByteTiles(off: nat, size: nat)
    ensures Tiles(AfterByte(off, size), off, size)
  {
    if off % 4 != 0 && size > 2 {
      WordsTile(off + 2, size - 2);
      TilesConcat([Access(2, off)], Words(off + 2, size - 2), off, 2, size - 2);
    } else {
      WordsTile(off, size);
    }
  }

  lemma {:induction false} WordsAligned(off: nat, size: nat)
    requires off % 4 == 0 || (size <= 2 && (off % 2 == 0 || size <= 1))
    ensures Aligned(Words(off, size))
    decreases size
  {
    if size > 3 {
      WordsAligned(off + 4, size - 4);
    }
  }

  /** Every access of the plan is naturally aligned. */
  lemma PlanAligned(off: nat, size: nat)
    ensures Aligned(Plan(off, size))
  {
    if off % 2 == 1 && size > 0 {
      AfterByteAligned(off + 1, size - 1);
    } else {
      AfterByteAligned(off, size);
    }
  }

  lemma AfterByteAligned(off: nat, size: nat)
    requires off % 2 == 0 || size == 0
    ensures Aligned(AfterByte(off, size))
  {
    if off % 4 != 0 && size > 2 {
      WordsAligned(off + 2, size - 2);
    } else {
      WordsAligned(off, size);
    }
  }

  /** The buffer bytes a run of reads fills in. */
  function Bytes(p: seq<Access>, read: ConfigSpace): (bs: seq<u8>)
  {
    if |p| == 0 then []
    else BeBytes(read(p[0].width, p[0].off), p[0].width) + Bytes(p[1..], read)
  }

  lemma {:induction false} BytesSnoc(p: seq<Access>, a: Access, read: ConfigSpace)
    ensures Bytes(p + [a], read) == Bytes(p, read) + BeBytes(read(a.width, a.off), a.width)
    decreases |p|
  {
    if |p| > 0 {
      assert (p + [a])[1..] == p[1..] + [a];
      BytesSnoc(p[1..], a, read);
    }
  }

  /** The config reads a run of accesses makes. */
  function Reads(p: seq<Access>): (ops: seq<BusOp>)
    ensures |ops| == |p|
    ensures forall k :: 0 <= k < |p| ==> ops[k] == ConfigRead(p[k].width, p[k].off)
  {
    seq(|p|, k requires 0 <= k < |p| => ConfigRead(p[k].width, p[k].off))
  }

  /** The config writes a run of accesses makes from the buffer data
      holding the bytes from offset base on: each writes the value of the
      bytes it covers, most significant first. */
  function Writes(p: seq<Access>, data: seq<u8>, base: nat): (ops: seq<BusOp>)
    ensures |ops| == |p|
    ensures forall k :: 0 <= k < |p| ==> ops[k] == ConfigWrite(p[k].width, p[k].off, Stored(data, base, p[k].width, p[k].off))
  {
    seq(|p|, k requires 0 <= k < |p| => ConfigWrite(p[k].width, p[k].off, Stored(data, base, p[k].width, p[k].off)))
  }

  /** A device whose config space holds what data says from offset base
      on: a read returns the value a write of the same bytes would have
      stored. */
  function Readback(data: seq<u8>, base: nat): (read: ConfigSpace)
  {
    (w: Width, o: nat) => Stored(data, base, w, o)
  }

  function Stored(data: seq<u8>, base: nat, w: Width, o: nat): nat
  {
    if base <= o && o - base + w <= |data|
    then BeValue(data[o - base..o - base + w]) else 0
  }

  /** Reading a tiled range of a device that holds data gives data back:
      unpacking the values rio_write_config packs restores its buffer. */
  lemma {:induction false} ReadbackTiles(p: seq<Access>, off: nat, n: nat, data: seq<u8>, base: nat)
    requires Tiles(p, off, n) && base <= off && off - base + n <= |data|
    ensures Bytes(p, Readback(data, base)) == data[off - base..off - base + n]
    decreases |p|
  {
    if |p| > 0 {
      var w, lo := p[0].width, off - base;
      ReadbackTiles(p[1..], off + w, n - w, data, base);
      BeBytesOfValue(data[lo..lo + w]);
      SliceSplit(data, lo, lo + w, lo + n);
    }
  }

  lemma SliceSplit<T>(s: seq<T>, i: nat, j: nat, k: nat)
    requires i <= j <= k <= |s|
    ensures s[i..k] == s[i..j] + s[j..k]
  {
  }

  /** Config writes followed by config reads of the same range give the
      buffer back. */
  lemma ConfigRoundTrip(off: nat, data: seq<u8>)
    ensures Bytes(Plan(off, |data|), Readback(data, off)) == data
  {
    PlanTiles(off, |data|);
    ReadbackTiles(Plan(off, |data|), off, |data|, data, off);
  }

  /** How many bytes of a file of size bytes a transfer of count bytes at
      off reaches: none past the end, else up to the end. */
  function Clip(off: nat, count: nat, size: nat): (n: nat)
    ensures off >= size ==> n == 0
    ensures off < size ==> n == if off + count > size then size - off else count
    ensures off + n <= size || n == 0
  {
    if off >= size then 0 else if off + count > size then size - off else count
  }

  /** Which size rio_create_sysfs_dev_files gives the memory file: 50-bit
      addressing wins over 66-bit, which wins over 34-bit; a window that
      does not fit a 32-bit size is 2 GB; no extended addressing, no
      window. */
  function MemoryWindowSize(pef: bv32, sizeIs32Bit: bool): (size: nat)
    ensures pef & (RIO_PEF_ADDR_50 | RIO_PEF_ADDR_66 | RIO_PEF_ADDR_34) == 0 <==> size == 0
    ensures sizeIs32Bit ==> size == 0 || size == 0x8000_0000
    ensures !sizeIs32Bit && pef & RIO_PEF_ADDR_50 != 0 ==> size == 0x4_0000_0000_0000
    ensures !sizeIs32Bit && pef & RIO_PEF_ADDR_50 == 0 && pef & RIO_PEF_ADDR_66 != 0 ==> size == 0x8000_0000_0000_0000
    ensures !sizeIs32Bit && pef & (RIO_PEF_ADDR_50 | RIO_PEF_ADDR_66) == 0 && pef & RIO_PEF_ADDR_34 != 0
            ==> size == 0x4_0000_0000
  {
    if pef & RIO_PEF_ADDR_50 != 0 then (if sizeIs32Bit then 0x8000_0000 else 0x4_0000_0000_0000)
    else if pef & RIO_PEF_ADDR_66 != 0 then (if sizeIs32Bit then 0x8000_0000 else 0x8000_0000_0000_0000)
    else if pef & RIO_PEF_ADDR_34 != 0 then (if sizeIs32Bit then 0x8000_0000 else 0x4_0000_0000)
    else 0
  }

  class RioDev {
    /** The maintenance and memory accesses made so far, in order. */
    var trace: seq<BusOp>
    /** Processing element features (rdev->pef). */
    const pef: bv32
    /** Size of the memory file (rdev->memory.size); 0 when there is none. */
    var memorySize: nat
    /** The sysfs files the device has. */
    var files: set<SysfsFile>
    /** Whether the switch's own sysfs files are up (rswitch->sw_sysfs). */
    var swSysfsOn: bool
    /** Whether the device is a switch, and whether its switch ops add
        sysfs files of their own. */
    const isSwitch: bool
    const hasSwSysfs: bool
    /** The switch's route table, and whether the network uses 16-bit
        device IDs. */
    const routeTable: seq<u8>
    const largeSys: bool

    constructor (pef: bv32, isSwitch: bool, hasSwSysfs: bool, routeTable: seq<u8>, largeSys: bool)
      ensures this.pef == pef && this.isSwitch == isSwitch && this.hasSwSysfs == hasSwSysfs
      ensures this.routeTable == routeTable && this.largeSys == largeSys
      ensures trace == [] && memorySize == 0 && files == {} && !swSysfsOn
    {
      this.pef := pef;
      this.isSwitch := isSwitch;
      this.hasSwSysfs := hasSwSysfs;
      this.routeTable := routeTable;
      this.largeSys := largeSys;
      trace := [];
      memorySize := 0;
      files := {};
      swSysfsOn := false;
    }

    /** The memory file exists exactly when the window has a size, the
        routes file only on a switch, and switch files only where the
        switch has them. */
    ghost predicate Valid()
      reads this
    {
      && (MemoryFile in files <==> memorySize != 0)
      && (RoutesFile in files ==> isSwitch)
      && (swSysfsOn ==> isSwitch && hasSwSysfs)
    }

    /** rio_create_sysfs_dev_files, with the outcome of each file's
        creation given: the config file, then on a switch the routes file
        and the switch's own files; the first failure is returned with
        the files made so far left in place; otherwise the memory window
        gets its size and, when it has one, its file, a failure there
        leaving the size 0. */
    method CreateSysfsDevFiles(configErr: int, routesErr: int, swErr: int, memoryErr: int, sizeIs32Bit: bool)
      returns (err: int)
      requires files == {} && memorySize == 0 && !swSysfsOn
      modifies this`files, this`memorySize, this`swSysfsOn
      ensures Valid()
      ensures configErr != 0 ==> err == configErr && files == {}
      ensures configErr == 0 ==> ConfigFile in files
      ensures configErr == 0 && isSwitch ==> (err == 0 || err == routesErr || (hasSwSysfs && err == swErr) || err == memoryErr)
      ensures configErr == 0 && isSwitch && routesErr != 0 ==> err == routesErr && files == {ConfigFile}
      ensures configErr == 0 && isSwitch && routesErr == 0 ==> RoutesFile in files
      ensures configErr == 0 && isSwitch && routesErr == 0 && hasSwSysfs ==> (swSysfsOn <==> swErr == 0)
      ensures configErr == 0 && isSwitch && routesErr == 0 && hasSwSysfs && swErr != 0
              ==> err == swErr && files == {ConfigFile, RoutesFile}
      ensures err == 0 <==> SetupOk(configErr, routesErr, swErr, memoryErr, MemoryWindowSize(pef, sizeIs32Bit))
      ensures memorySize != 0 <==> SetupOk(configErr, routesErr, swErr, 0, 0) && memoryErr == 0
                                   && MemoryWindowSize(pef, sizeIs32Bit) != 0
      ensures SetupOk(configErr, routesErr, swErr, 0, 0) && MemoryWindowSize(pef, sizeIs32Bit) != 0 ==> err == memoryErr
      ensures memorySize != 0 ==> memorySize == MemoryWindowSize(pef, sizeIs32Bit)
    {
      err := configErr;
      if err == 0 {
        files := files + {ConfigFile};
      }
      if err == 0 && isSwitch {
        err := routesErr;
        if err == 0 {
          files := files + {RoutesFile};
          if hasSwSysfs {
            err := swErr;
            swSysfsOn := err == 0;
          }
        }
      }
      if err != 0 {
        return err;
      }
      memorySize := MemoryWindowSize(pef, sizeIs32Bit);
      if memorySize != 0 {
        err := memoryErr;
        if err == 0 {
          files := files + {MemoryFile};
        } else {
          memorySize := 0;
        }
      }
    }

    /** Whether every file creation succeeds, for a window of the given
        size. */
    predicate SetupOk(configErr: int, routesErr: int, swErr: int, memoryErr: int, window: nat)
      reads this
    {
      && configErr == 0
      && (isSwitch ==> routesErr == 0 && (hasSwSysfs ==> swErr == 0))
      && (window != 0 ==> memoryErr == 0)
    }

    /** rio_read_memory: a read at or past the end of the window returns
        0; otherwise the count is clipped to the end, and when the window
        can be mapped that many bytes are copied from it and returned,
        when it cannot nothing is copied and 0 is returned. */
    method ReadMemory(buf: array<u8>, off: nat, count: nat, mapOk: bool, window: Window) returns (r: nat)
      requires buf.Length >= count
      modifies buf, this`trace
      ensures r == if mapOk then Clip(off, count, memorySize) else 0
      ensures off < memorySize && mapOk ==> trace == old(trace) + [MemoryRead(off, r)]
      ensures off >= memorySize || !mapOk ==> trace == old(trace)
      ensures buf[..] == WindowBytes(window, off, r) + old(buf[..])[r..]
    {
      if off >= memorySize {
        return 0;
      }
      var n := count;
      if off + count > memorySize {
        n := memorySize - off;
      }
      if !mapOk {
        return 0;
      }
      trace := trace + [MemoryRead(off, n)];
      forall k | 0 <= k < n {
        buf[k] := window(off + k);
      }
      r := n;
    }

    /** rio_write_memory: as ReadMemory, the clipped bytes of the buffer
        being copied into the window. */
    method WriteMemory(buf: array<u8>, off: nat, count: nat, mapOk: bool) returns (r: nat)
      requires buf.Length >= count
      modifies this`trace
      ensures r == if mapOk then Clip(off, count, memorySize) else 0
      ensures off < memorySize && mapOk ==> trace == old(trace) + [MemoryWrite(off, buf[..r])]
      ensures off >= memorySize || !mapOk ==> trace == old(trace)
    {
      if off >= memorySize {
        return 0;
      }
      var n := count;
      if off + count > memorySize {
        n := memorySize - off;
      }
      if !mapOk {
        return 0;
      }
      trace := trace + [MemoryWrite(off, buf[..n])];
      r := n;
    }

    /** routes_show as written: one line per valid route, in index order,
        with no bound on the total; see RoutesShowBounded. */
    method RoutesShow() returns (text: string, r: nat)
      requires isSwitch && |routeTable| >= MaxRouteEntries(largeSys)
      ensures text == Listing(routeTable, MaxRouteEntries(largeSys)) && r == |text|
    {
      text := [];
      var i := 0;
      while i < MaxRouteEntries(largeSys)
        invariant i <= MaxRouteEntries(largeSys) && text == Listing(routeTable, i)
      {
        if routeTable[i] != RIO_INVALID_ROUTE {
          text := text + RouteLine(i, routeTable[i]);
        }
        i := i + 1;
      }
      r := |text|;
    }

    /** routes_show corrected to stay within the page sysfs gives it:
        lines are written while the next one fits whole. */
    method RoutesShowBounded() returns (text: string, r: nat)
      requires isSwitch && |routeTable| >= MaxRouteEntries(largeSys)
      ensures r == |text| <= PAGE_SIZE
      ensures text <= Listing(routeTable, MaxRouteEntries(largeSys))
      ensures |Listing(routeTable, MaxRouteEntries(largeSys))| <= PAGE_SIZE
              ==> text == Listing(routeTable, MaxRouteEntries(largeSys))
      ensures text == Listing(routeTable, MaxRouteEntries(largeSys)) || |text| + 8 > PAGE_SIZE
    {
      text := [];
      var i := 0;
      var full := false;
      while i < MaxRouteEntries(largeSys) && !full
        invariant i <= MaxRouteEntries(largeSys) && text == Listing(routeTable, i) && |text| <= PAGE_SIZE
        invariant full ==> i < MaxRouteEntries(largeSys) && routeTable[i] != RIO_INVALID_ROUTE && |text| + 8 > PAGE_SIZE
        decreases MaxRouteEntries(largeSys) - i, if full then 0 else 1
      {
        if routeTable[i] == RIO_INVALID_ROUTE {
          i := i + 1;
        } else if |text| + 8 <= PAGE_SIZE {
          text := text + RouteLine(i, routeTable[i]);
          i := i + 1;
        } else {
          full := true;
        }
      }
      if full {
        ListingPrefix(routeTable, i + 1, MaxRouteEntries(largeSys));
      }
      r := |text|;
    }

    /** Part way through rio_read_config: the bytes before o have been
        read by the accesses done, in order, and the rest of the buffer is
        as it was. */
    ghost predicate Reading(buf: array<u8>, trace0: seq<BusOp>, buf0: seq<u8>, off0: nat, o: nat, size: nat,
                            cnt: nat, done: seq<Access>, read: ConfigSpace)
      reads this, buf
    {
      && off0 <= o && o - off0 + size == cnt <= buf.Length && |buf0| == buf.Length
      && trace == trace0 + Reads(done)
      && |Bytes(done, read)| == o - off0
      && buf[..] == Bytes(done, read) + buf0[o - off0..]
    }

    /** Stores the bytes of val most significant first at buf[d..], as
        rio_read_config does after each access of width w. */
    method Store(buf: array<u8>, d: nat, w: Width, val: nat)
      requires d + w <= buf.Length && val < Pow256(w)
      modifies buf
      ensures buf[..] == old(buf[..])[..d] + BeBytes(val, w) + old(buf[..])[d + w..]
    {
      if w == 1 {
        buf[d] := val;
      } else if w == 2 {
        buf[d] := (val / 0x100) % 0x100;
        buf[d + 1] := val % 0x100;
      } else {
        buf[d] := (val / 0x100_0000) % 0x100;
        buf[d + 1] := (val / 0x1_0000) % 0x100;
        buf[d + 2] := (val / 0x100) % 0x100;
        buf[d + 3] := val % 0x100;
      }
    }

    /** One rio_read_config_8/16/32 of rio_read_config, with its value
        stored into the buffer most significant byte first. */
    method ReadNext(buf: array<u8>, w: Width, o: nat, size: nat, read: ConfigSpace, ghost trace0: seq<BusOp>,
                    ghost buf0: seq<u8>, off0: nat, ghost cnt: nat, ghost done: seq<Access>)
      requires w <= size && ReadsFit(read)
      requires Reading(buf, trace0, buf0, off0, o, size, cnt, done, read)
      modifies buf, this`trace
      ensures Reading(buf, trace0, buf0, off0, o + w, size - w, cnt, done + [Access(w, o)], read)
    {
      var d := o - off0;
      var val := read(w, o);
      trace := trace + [ConfigRead(w, o)];
      Store(buf, d, w, val);
      BytesSnoc(done, Access(w, o), read);
      Splice(Bytes(done, read), buf0, BeBytes(val, w));
      assert Reads(done + [Access(w, o)]) == Reads(done) + [ConfigRead(w, o)];
    }

    /** The staged accesses of rio_read_config over size bytes at off,
        once the count is clipped: the buffer then holds the bytes of
        each value read, in order, and nothing after them has changed. */
    method ReadRange(buf: array<u8>, off: nat, size: nat, read: ConfigSpace)
      requires buf.Length >= size && ReadsFit(read)
      modifies buf, this`trace
      ensures Reading(buf, old(trace), old(buf[..]), off, off + size, 0, size, Plan(off, size), read)
    {
      ghost var trace0, buf0 := trace, buf[..];
      assert buf[..0] == [] && buf[0..] == buf0;
      var o, left, done := ReadHead(buf, off, size, read, trace0, buf0, off, size, []);
      assert done + Words(o, left) == Plan(off, size);
      o, left, done := ReadWords(buf, o, left, read, trace0, buf0, off, size, done);
      o, left, done := ReadTail(buf, o, left, read, trace0, buf0, off, size, done);
    }

    /** The byte and half-word reads that bring o to a word boundary. */
    method ReadHead(buf: array<u8>, o0: nat, left0: nat, read: ConfigSpace, ghost trace0: seq<BusOp>,
                    ghost buf0: seq<u8>, off0: nat, ghost cnt: nat, ghost done0: seq<Access>)
      returns (o: nat, left: nat, ghost done: seq<Access>)
      requires ReadsFit(read) && Reading(buf, trace0, buf0, off0, o0, left0, cnt, done0, read)
      modifies buf, this`trace
      ensures Reading(buf, trace0, buf0, off0, o, left, cnt, done, read)
      ensures done + Words(o, left) == done0 + Plan(o0, left0)
    {
      o, left, done := o0, left0, done0;
      ghost var todo := Plan(o0, left0);
      if o % 2 == 1 && left > 0 {
        ReadNext(buf, 1, o, left, read, trace0, buf0, off0, cnt, done);
        Shift(done, todo);
        done, todo, o, left := done + [todo[0]], todo[1..], o + 1, left - 1;
      }
      assert todo == AfterByte(o, left);
      if o % 4 != 0 && left > 2 {
        ReadNext(buf, 2, o, left, read, trace0, buf0, off0, cnt, done);
        Shift(done, todo);
        done, todo, o, left := done + [todo[0]], todo[1..], o + 2, left - 2;
      }
      assert todo == Words(o, left);
    }

    /** The word reads while more than three bytes are left. */
    method ReadWords(buf: array<u8>, o0: nat, left0: nat, read: ConfigSpace, ghost trace0: seq<BusOp>,
                     ghost buf0: seq<u8>, off0: nat, ghost cnt: nat, ghost done0: seq<Access>)
      returns (o: nat, left: nat, ghost done: seq<Access>)
      requires ReadsFit(read) && Reading(buf, trace0, buf0, off0, o0, left0, cnt, done0, read)
      modifies buf, this`trace
      ensures Reading(buf, trace0, buf0, off0, o, left, cnt, done, read)
      ensures done + Tail(o, left) == done0 + Words(o0, left0) && left <= 3
    {
      o, left, done := o0, left0, done0;
      while left > 3
        invariant Reading(buf, trace0, buf0, off0, o, left, cnt, done, read)
        invariant done + Words(o, left) == done0 + Words(o0, left0)
      {
        ReadNext(buf, 4, o, left, read, trace0, buf0, off0, cnt, done);
        Shift(done, Words(o, left));
        done, o, left := done + [Access(4, o)], o + 4, left - 4;
      }
    }

    /** The half-word and byte reads of the last three bytes or fewer. */
    method ReadTail(buf: array<u8>, o0: nat, left0: nat, read: ConfigSpace, ghost trace0: seq<BusOp>,
                    ghost buf0: seq<u8>, off0: nat, ghost cnt: nat, ghost done0: seq<Access>)
      returns (o: nat, left: nat, ghost done: seq<Access>)
      requires left0 <= 3 && ReadsFit(read) && Reading(buf, trace0, buf0, off0, o0, left0, cnt, done0, read)
      modifies buf, this`trace
      ensures Reading(buf, trace0, buf0, off0, o, left, cnt, done, read)
      ensures done == done0 + Tail(o0, left0) && left == 0
    {
      o, left, done := o0, left0, done0;
      ghost var todo := Tail(o0, left0);
      if left >= 2 {
        ReadNext(buf, 2, o, left, read, trace0, buf0, off0, cnt, done);
        Shift(done, todo);
        done, todo, o, left := done + [todo[0]], todo[1..], o + 2, left - 2;
      }
      if left > 0 {
        ReadNext(buf, 1, o, left, read, trace0, buf0, off0, cnt, done);
        Shift(done, todo);
        done, todo, o, left := done + [todo[0]], todo[1..], o + 1, left - 1;
      }
      assert todo == [];
    }

    /** Part way through rio_write_config: the accesses done have
        written the bytes before o, in order. */
    ghost predicate Writing(buf: array<u8>, trace0: seq<BusOp>, off0: nat, o: nat, size: nat, cnt: nat,
                            done: seq<Access>)
      reads this, buf
    {
      && off0 <= o && o - off0 + size == cnt <= buf.Length
      && trace == trace0 + Writes(done, buf[..], off0)
    }

    /** One rio_write_config_8/16/32 of rio_write_config, its value built
        from the buffer's bytes most significant first. */
    method WriteNext(buf: array<u8>, w: Width, o: nat, size: nat, ghost trace0: seq<BusOp>, off0: nat,
                     ghost cnt: nat, ghost done: seq<Access>)
      requires w <= size && Writing(buf, trace0, off0, o, size, cnt, done)
      modifies this`trace
      ensures Writing(buf, trace0, off0, o + w, size - w, cnt, done + [Access(w, o)])
    {
      var d := o - off0;
      var val: nat;
      if w == 1 {
        val := buf[d];
      } else if w == 2 {
        val := buf[d + 1] + buf[d] as int * 0x100;
      } else {
        val := buf[d + 3] + buf[d + 2] as int * 0x100 + buf[d + 1] as int * 0x1_0000 + buf[d] as int * 0x100_0000;
      }
      assert val == Stored(buf[..], off0, w, o);
      trace := trace + [ConfigWrite(w, o, val)];
      assert Writes(done + [Access(w, o)], buf[..], off0) == Writes(done, buf[..], off0) + [ConfigWrite(w, o, val)];
    }

    /** The staged accesses of rio_write_config over size bytes at off,
        once the count is clipped. */
    method WriteRange(buf: array<u8>, off: nat, size: nat)
      requires buf.Length >= size
      modifies this`trace
      ensures Writing(buf, old(trace), off, off + size, 0, size, Plan(off, size))
    {
      ghost var trace0 := trace;
      var o, left, done := WriteHead(buf, off, size, trace0, off, size, []);
      assert done + Words(o, left) == Plan(off, size);
      o, left, done := WriteWords(buf, o, left, trace0, off, size, done);
      o, left, done := WriteTail(buf, o, left, trace0, off, size, done);
    }

    /** The byte and half-word writes that bring o to a word boundary. */
    method WriteHead(buf: array<u8>, o0: nat, left0: nat, ghost trace0: seq<BusOp>, off0: nat, ghost cnt: nat,
                     ghost done0: seq<Access>)
      returns (o: nat, left: nat, ghost done: seq<Access>)
      requires Writing(buf, trace0, off0, o0, left0, cnt, done0)
      modifies this`trace
      ensures Writing(buf, trace0, off0, o, left, cnt, done)
      ensures done + Words(o, left) == done0 + Plan(o0, left0)
    {
      o, left, done := o0, left0, done0;
      ghost var todo := Plan(o0, left0);
      if o % 2 == 1 && left > 0 {
        WriteNext(buf, 1, o, left, trace0, off0, cnt, done);
        Shift(done, todo);
        done, todo, o, left := done + [todo[0]], todo[1..], o + 1, left - 1;
      }
      assert todo == AfterByte(o, left);
      if o % 4 != 0 && left > 2 {
        WriteNext(buf, 2, o, left, trace0, off0, cnt, done);
        Shift(done, todo);
        done, todo, o, left := done + [todo[0]], todo[1..], o + 2, left - 2;
      }
      assert todo == Words(o, left);
    }

    /** The word writes while more than three bytes are left. */
    method WriteWords(buf: array<u8>, o0: nat, left0: nat, ghost trace0: seq<BusOp>, off0: nat, ghost cnt: nat,
                      ghost done0: seq<Access>)
      returns (o: nat, left: nat, ghost done: seq<Access>)
      requires Writing(buf, trace0, off0, o0, left0, cnt, done0)
      modifies this`trace
      ensures Writing(buf, trace0, off0, o, left, cnt, done)
      ensures done + Tail(o, left) == done0 + Words(o0, left0) && left <= 3
    {
      o, left, done := o0, left0, done0;
      while left > 3
        invariant Writing(buf, trace0, off0, o, left, cnt, done)
        invariant done + Words(o, left) == done0 + Words(o0, left0)
      {
        WriteNext(buf, 4, o, left, trace0, off0, cnt, done);
        Shift(done, Words(o, left));
        done, o, left := done + [Access(4, o)], o + 4, left - 4;
      }
    }

    /** The half-word and byte writes of the last three bytes or fewer. */
    method WriteTail(buf: array<u8>, o0: nat, left0: nat, ghost trace0: seq<BusOp>, off0: nat, ghost cnt: nat,
                     ghost done0: seq<Access>)
      returns (o: nat, left: nat, ghost done: seq<Access>)
      requires left0 <= 3 && Writing(buf, trace0, off0, o0, left0, cnt, done0)
      modifies this`trace
      ensures Writing(buf, trace0, off0, o, left, cnt, done)
      ensures done == done0 + Tail(o0, left0) && left == 0
    {
      o, left, done := o0, left0, done0;
      ghost var todo := Tail(o0, left0);
      if left >= 2 {
        WriteNext(buf, 2, o, left, trace0, off0, cnt, done);
        Shift(done, todo);
        done, todo, o, left := done + [todo[0]], todo[1..], o + 2, left - 2;
      }
      if left > 0 {
        WriteNext(buf, 1, o, left, trace0, off0, cnt, done);
        Shift(done, todo);
        done, todo, o, left := done + [todo[0]], todo[1..], o + 1, left - 1;
      }
      assert todo == [];
    }

    /** rio_write_config: a write at or past the end of config space
        returns 0; otherwise the count is clipped to the end, the range is
        written by the accesses Plan gives, each value built from the
        buffer's bytes most significant first, and the clipped count is
        returned. The buffer is not changed. */
    method WriteConfig(buf: array<u8>, attrSize: nat, off: nat, count: nat) returns (r: nat)
      requires buf.Length >= count
      modifies this`trace
      ensures r == Clip(off, count, attrSize)
      ensures trace == old(trace) + Writes(Plan(off, r), buf[..], off)
    {
      if off >= attrSize {
        return 0;
      }
      r := count;
      if off + count > attrSize {
        r := attrSize - off;
      }
      WriteRange(buf, off, r);
    }

    /** rio_read_config: a reader without CAP_SYS_ADMIN sees only the
        first 256 bytes; a read at or past the end returns 0; otherwise the
        count is clipped to the end, the range is read by the accesses
        Plan gives, each value's bytes are stored most significant first,
        and the clipped count is returned. */
    method ReadConfig(buf: array<u8>, attrSize: nat, capSysAdmin: bool, off: nat, count: nat, read: ConfigSpace)
      returns (r: nat)
      requires buf.Length >= count && ReadsFit(read)
      modifies buf, this`trace
      ensures r == Clip(off, count, if capSysAdmin then attrSize else RIO_SAFE_CONFIG_SIZE)
      ensures trace == old(trace) + Reads(Plan(off, r))
      ensures buf[..] == Bytes(Plan(off, r), read) + old(buf[..])[r..]
    {
      var size: nat := RIO_SAFE_CONFIG_SIZE;
      if capSysAdmin {
        size := attrSize;
      }
      if off >= size {
        return 0;
      }
      if off + count > size {
        size := size - off;
        r := size;
      } else {
        r := count;
      }
      ReadRange(buf, off, r, read);
    }
  }

  /** The bytes of the window from off on. */
  function WindowBytes(window: Window, off: nat, n: nat): (bs: seq<u8>)
    ensures |bs| == n && forall k :: 0 <= k < n ==> bs[k] == window(off + k)
  {
    seq(n, k requires 0 <= k < n => window(off + k))
  }

  /** The lowercase hex digit of d. */
  function HexDigit(d: nat): (c: char)
    requires d < 16
  {
    if d < 10 then '0' + d as char else 'a' + (d - 10) as char
  }

  /** n in exactly w lowercase hex digits, zero padded, as "%0wx" prints
      a value below 16 to the w. */
  function Hex(n: nat, w: nat): (s: string)
    ensures |s| == w
  {
    if w == 0 then [] else Hex(n / 16, w - 1) + [HexDigit(n % 16)]
  }

  /** The value of a string of lowercase hex digits. */
  function HexValue(s: string): nat
  {
    if |s| == 0 then 0 else HexValue(s[..|s| - 1]) * 16 + DigitValue(s[|s| - 1])
  }

  function DigitValue(c: char): nat
  {
    if '0' <= c <= '9' then (c - '0') as nat
    else if 'a' <= c <= 'f' then (c - 'a') as nat + 10
    else 0
  }

  function Pow16(w: nat): (p: nat)
    ensures p > 0
  {
    if w == 0 then 1 else 16 * Pow16(w - 1)
  }

  /** The digits print the value: reading them back gives n. */
  lemma {:induction false} HexRoundTrip(n: nat, w: nat)
    requires n < Pow16(w)
    ensures HexValue(Hex(n, w)) == n
  {
    if w > 0 {
      var s := Hex(n, w);
      assert s[..|s| - 1] == Hex(n / 16, w - 1);
      HexRoundTrip(n / 16, w - 1);
    }
  }

  /** The line routes_show prints for a route: "%04x %02x\n". */
  function RouteLine(i: nat, port: u8): (line: string)
    ensures |line| == 8
  {
    Hex(i, 4) + " " + Hex(port, 2) + "\n"
  }

  /** A route line gives back its index and port. */
  lemma RouteLineParses(i: nat, port: u8)
    requires i < 0x1_0000
    ensures var line := RouteLine(i, port);
      HexValue(line[..4]) == i && line[4] == ' ' && HexValue(line[5..7]) == port && line[7] == '\n'
  {
    var line := RouteLine(i, port);
    assert line[..4] == Hex(i, 4) && line[5..7] == Hex(port, 2);
    assert Pow16(4) == 0x1_0000 && Pow16(2) == 0x100;
    HexRoundTrip(i, 4);
    HexRoundTrip(port, 2);
  }

  /** The route listing of the first n entries of a table: a line for
      each valid route, in index order. */
  function Listing(table: seq<u8>, n: nat): (text: string)
    requires n <= |table|
  {
    if n == 0 then []
    else if table[n - 1] == RIO_INVALID_ROUTE then Listing(table, n - 1)
    else Listing(table, n - 1) + RouteLine(n - 1, table[n - 1])
  }

  /** The valid routes among the first n entries, in index order. */
  function ValidRoutes(table: seq<u8>, n: nat): (ix: seq<nat>)
    requires n <= |table|
    ensures forall k :: 0 <= k < |ix| ==> ix[k] < n
  {
    if n == 0 then []
    else if table[n - 1] == RIO_INVALID_ROUTE then ValidRoutes(table, n - 1)
    else ValidRoutes(table, n - 1) + [n - 1]
  }

  /** ValidRoutes lists, increasing, exactly the indexes below n whose
      entry is not RIO_INVALID_ROUTE. */
  lemma {:induction false} ValidRoutesExact(table: seq<u8>, n: nat)
    requires n <= |table|
    ensures var ix := ValidRoutes(table, n);
      && (forall k :: 0 <= k < |ix| ==> ix[k] < n && table[ix[k]] != RIO_INVALID_ROUTE)
      && (forall k, l :: 0 <= k < l < |ix| ==> ix[k] < ix[l])
      && (forall i :: 0 <= i < n && table[i] != RIO_INVALID_ROUTE ==> i in ix)
  {
    if n > 0 {
      ValidRoutesExact(table, n - 1);
    }
  }

  /** Line k of the listing is the line of the k-th valid route, so the
      listing is 8 bytes per valid route. */
  lemma {:induction false} ListingLines(table: seq<u8>, n: nat)
    requires n <= |table|
    ensures |Listing(table, n)| == 8 * |ValidRoutes(table, n)|
    ensures forall k :: 0 <= k < |ValidRoutes(table, n)| ==>
      Listing(table, n)[8 * k..8 * k + 8] == RouteLine(ValidRoutes(table, n)[k], table[ValidRoutes(table, n)[k]])
  {
    if n > 0 {
      ListingLines(table, n - 1);
      var prev, ix := Listing(table, n - 1), ValidRoutes(table, n - 1);
      if table[n - 1] != RIO_INVALID_ROUTE {
        var text := prev + RouteLine(n - 1, table[n - 1]);
        forall k | 0 <= k < |ix| + 1
          ensures text[8 * k..8 * k + 8] == RouteLine((ix + [n - 1])[k], table[(ix + [n - 1])[k]])
        {
          if k < |ix| {
            assert text[8 * k..8 * k + 8] == prev[8 * k..8 * k + 8];
          } else {
            assert text[8 * k..8 * k + 8] == RouteLine(n - 1, table[n - 1]);
          }
        }
      }
    }
  }

  /** The listing can outgrow the page: a 16-bit switch with 513 valid
      routes prints 4104 bytes. */
  lemma RoutesOverflowPage()
    ensures var table := seq(0x1_0000, i => if i < 513 then 0 else RIO_INVALID_ROUTE);
      |Listing(table, MaxRouteEntries(true))| > PAGE_SIZE
  {
    var table := seq(0x1_0000, i => if i < 513 then 0 else RIO_INVALID_ROUTE);
    ListingLines(table, 0x1_0000);
    AllValid(table, 513);
    ValidRoutesGrow(table, 513, 0x1_0000);
  }

  /** A shorter table's listing begins the longer one's. */
  lemma {:induction false} ListingPrefix(table: seq<u8>, m: nat, n: nat)
    requires m <= n <= |table|
    ensures Listing(table, m) <= Listing(table, n)
    decreases n
  {
    if m < n {
      ListingPrefix(table, m, n - 1);
    }
  }

  lemma {:induction false} AllValid(table: seq<u8>, n: nat)
    requires n <= |table| && forall i :: 0 <= i < n ==> table[i] != RIO_INVALID_ROUTE
    ensures |ValidRoutes(table, n)| == n
  {
    if n > 0 {
      AllValid(table, n - 1);
    }
  }

  lemma {:induction false} ValidRoutesGrow(table: seq<u8>, m: nat, n: nat)
    requires m <= n <= |table|
    ensures |ValidRoutes(table, m)| <= |ValidRoutes(table, n)|
    decreases n
  {
    if m < n {
      ValidRoutesGrow(table, m, n - 1);
    }
  }

  /** Overwriting the bytes just past a prefix p of a buffer that holds p
      and then the tail of q extends p. */
  lemma Splice<T>(p: seq<T>, q: seq<T>, bs: seq<T>)
    requires |p| + |bs| <= |q|
    ensures (p + q[|p|..])[..|p|] + bs + (p + q[|p|..])[|p| + |bs|..] == (p + bs) + q[|p| + |bs|..]
  {
    var x := p + q[|p|..];
    assert x[..|p|] == p;
    assert x[|p| + |bs|..] == q[|p| + |bs|..];
  }

  lemma Shift<T>(done: seq<T>, todo: seq<T>)
    requires |todo| > 0
    ensures (done + [todo[0]]) + todo[1..] == done + todo
  {
    assert todo == [todo[0]] + todo[1..];
  }
}
