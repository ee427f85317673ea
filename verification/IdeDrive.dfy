/** The simulated IDE drive, emulator/ide_simulation.c: sectors are transferred word by
    word through the data register. */
module IdeDrive {
  const CYLINDERS := 490
  const HEADS := 4
  const SECTORS := 32
  const BYTES := 512
  const TOTAL: nat := 62720
  const MAX_SECTORS_PER_ACCESS := 256

  const DATA_REGISTER := 0
  const ERROR_REGISTER := 1
  const SECTOR_COUNT_REGISTER := 3
  const SECTOR_NUMBER_REGISTER := 4
  const CYLINDER_LOW_REGISTER := 5
  const CYLINDER_HIGH_REGISTER := 6
  const SDH_REGISTER := 7
  const STATUS_REGISTER := 8
  const COMMAND_REGISTER := 9
  const ALTERNATE_STATUS_REGISTER := 10

  type Byte = x: int | 0 <= x < 256
  type Word = x: int | 0 <= x < 0x1_0000

  // ----- addresses -----

  predicate InRange(c: int, h: int, s: int) {
    1 <= c <= CYLINDERS && 1 <= h <= HEADS && 1 <= s <= SECTORS
  }

  /** Sectors numbered from 0, sector by sector, head by head. */
  function Linear(c: int, h: int, s: int): (n: nat)
    requires InRange(c, h, s)
    ensures n < TOTAL
    ensures n / 128 == c - 1 && (n / 32) % 4 == h - 1 && n % 32 == s - 1
  {
    ((c - 1) * 4 + (h - 1)) * 32 + (s - 1)
  }

  /** The address after a transfer of one sector. */
  function Next(c: int, h: int, s: int): (int, int, int) {
    if s + 1 > SECTORS then
      if h + 1 > HEADS then (c + 1, 1, 1) else (c, h + 1, 1)
    else (c, h, s + 1)
  }

  /** Stepping advances the sector number by one, and leaves the disk exactly at its
      end. */
  lemma NextIsSuccessor(c: int, h: int, s: int)
    requires InRange(c, h, s)
    ensures var (c', h', s') := Next(c, h, s);
      && (InRange(c', h', s') <==> Linear(c, h, s) + 1 < TOTAL)
      && (InRange(c', h', s') ==> Linear(c', h', s') == Linear(c, h, s) + 1)
      && (!InRange(c', h', s') ==> (c', h', s') == (CYLINDERS + 1, 1, 1))
  {
  }

  /** A head register with its lower half replaced by the head number. */
  function WithHead(sdh: Byte, head: int): Byte
    requires 0 <= head
  {
    sdh - sdh % 16 + head % 16
  }

  function Bit(x: nat, weight: nat): bool
    requires weight > 0
  {
    (x / weight) % 2 == 1
  }

  /** x | 0xA0 */
  function WithFixedBits(x: Byte): Byte {
    var y := if Bit(x, 0x20) then x else x + 0x20;
    if Bit(y, 0x80) then y else y + 0x80
  }

  function WordOf(bytes: seq<Byte>, j: nat): Word
    requires 2 * j + 1 < |bytes|
  {
    var low: int, high: int := bytes[2 * j], bytes[2 * j + 1];
    low + 256 * high
  }

  /** writeRegister cuts values to 8 bits, or 16 bits for the data register. */
  function Cut(address: nat, value: nat): nat {
    if address == DATA_REGISTER then value % 0x1_0000 else value % 0x100
  }

  class Drive {
    const device: array4<Byte>
    const buffer: array<Byte>
    var registers: seq<nat>
    var cylinder: nat
    var head: nat
    var sector: nat
    var toAccess: nat        // no_sectors_to_access
    var count: nat           // sector_count
    var dataIn: bool         // pio_datain_in_progress
    var dataOut: bool        // pio_dataout_in_progress
    var transferred: nat     // no_of_bytes_transfered
    var filled: bool         // buffer_filled
    var extended: nat        // extended_error_code

    /** The sizes of the parts, and registers that hold bytes. */
    ghost predicate Shape()
      reads this, buffer
    {
      && device.Length0 == CYLINDERS && device.Length1 == HEADS && device.Length2 == SECTORS && device.Length3 == BYTES
      && buffer.Length == BYTES && |registers| == 12
      && (forall i :: 0 <= i < 12 ==> registers[i] < if i == DATA_REGISTER then 0x1_0000 else 0x100)
    }

    ghost predicate InTransfer()
      reads this
    {
      (dataIn || dataOut) && transferred < BYTES
    }

    /** Between accesses of a host that issues no command while data is requested: data
        is requested exactly during a transfer, and then the address is on the disk. */
    ghost predicate Valid()
      reads this, buffer, device
    {
      && Shape()
      && (InTransfer() <==> registers[STATUS_REGISTER] == 0x08)
      && (InTransfer() ==>
            && (dataIn != dataOut) && count < toAccess <= MAX_SECTORS_PER_ACCESS && transferred % 2 == 0
            && InRange(cylinder, head, sector)
            && (dataIn ==> filled && buffer[..] == Sector(Linear(cylinder, head, sector))))
    }

    /** The bytes of sector n. */
    ghost function Sector(n: nat): (s: seq<Byte>)
      requires n < TOTAL && device.Length0 == CYLINDERS && device.Length1 == HEADS && device.Length2 == SECTORS
      requires device.Length3 == BYTES
      reads device
      ensures |s| == BYTES
    {
      seq(BYTES, i requires 0 <= i < BYTES reads device => device[n / 128, (n / 32) % 4, n % 32, i])
    }

    /** A sector is being transferred: the k-th of n, at linear number lin; done bytes of
        it so far. */
    ghost predicate Transferring(input: bool, lin: nat, k: nat, n: nat, done: nat)
      reads this, device, buffer
    {
      && Valid() && InTransfer() && dataIn == input && count == k && toAccess == n && transferred == done
      && lin == Linear(cylinder, head, sector)
    }

    /** No transfer; the data request bit is not set. */
    ghost predicate Finished(status: nat)
      reads this, buffer, device
    {
      Valid() && !InTransfer() && registers[STATUS_REGISTER] == status && (status == 0x50 || status == 0x51)
    }

    /** Ready for a command. */
    ghost predicate Idle()
      reads this, buffer, device
    {
      Finished(0x50) || Finished(0x51)
    }

    method WriteRegister(address: nat, value: nat)
      requires |registers| == 12 && address < 12
      modifies this`registers
      ensures registers == old(registers)[address := Cut(address, value)]
      ensures value < 0x100 ==> registers == old(registers)[address := value]
      ensures Cut(address, value) < if address == DATA_REGISTER then 0x1_0000 else 0x100
    {
      registers := registers[address := Cut(address, value)];
    }

    /** The next sector of a command, if there is one; otherwise the command's end. */
    method PrepareNextSectorForPIO(read: bool, verifyOnly: bool)
      requires Shape() && InRange(cylinder, head, sector)
      modifies this`registers, this`cylinder, this`head, this`sector, this`dataIn, this`dataOut, this`transferred,
        this`filled, this`extended, buffer
      ensures Shape()
      ensures count < toAccess ==> dataIn == old(dataIn) && dataOut == old(dataOut)
      ensures var lin := old(Linear(cylinder, head, sector));
        var next := if count == 0 then lin else lin + 1;
        if count < toAccess && next < TOTAL then
          && registers[STATUS_REGISTER] == (if verifyOnly then 0x80 else 0x08)
          && registers[ERROR_REGISTER] == old(registers[ERROR_REGISTER])
          && transferred == 0 && InRange(cylinder, head, sector) && Linear(cylinder, head, sector) == next
          && (read ==> filled && buffer[..] == Sector(next))
        else if count < toAccess then
          && registers[STATUS_REGISTER] == 0x51 && registers[ERROR_REGISTER] == 0x04 && extended == 0x21
          && Address() == (CYLINDERS + 1, 1, 1) && transferred == old(transferred)
        else
          && registers[STATUS_REGISTER] == 0x50 && extended == 0
          && registers[ERROR_REGISTER] == old(registers[ERROR_REGISTER])
          && !dataIn && !dataOut && Address() == old((cylinder, head, sector))
      ensures registers[SECTOR_COUNT_REGISTER] == old(registers[SECTOR_COUNT_REGISTER])
    {
      hide Cut, Linear;
      if count < toAccess {
        WriteRegister(STATUS_REGISTER, 0x80);
        ghost var c, h, p := cylinder, head, sector;
        var error := false;
        if count > 0 {
          NextIsSuccessor(c, h, p);
          error := StepAddress();
        }
        if error {
          AbortAtEnd();
        } else {
          LinearBelow(cylinder, head, sector);
          OfferSector(read, verifyOnly);
        }
      } else {
        Complete();
      }
    }

    method AbortAtEnd()
      requires Shape() && cylinder < 0x1_0000 && head < 16 && sector < 256
      modifies this`registers, this`extended
      ensures Shape() && Address() == (cylinder, head, sector) && extended == 0x21
      ensures registers[STATUS_REGISTER] == 0x51 && registers[ERROR_REGISTER] == 0x04
      ensures registers[SECTOR_COUNT_REGISTER] == old(registers[SECTOR_COUNT_REGISTER])
    {
      hide Cut;
      WriteRegister(ERROR_REGISTER, 0x04);
      StoreAddress();
      extended := 0x21;
      WriteRegister(STATUS_REGISTER, 0x51);
      WriteRegister(ALTERNATE_STATUS_REGISTER, 0x51);
    }

    /** Fill or clear the buffer and tell the host to transfer it, if it is to be transferred. */
    method OfferSector(read: bool, verifyOnly: bool)
      requires Shape() && InRange(cylinder, head, sector)
      modifies this`registers, this`transferred, this`filled, buffer
      ensures Shape()
      ensures registers[STATUS_REGISTER] == if verifyOnly then old(registers[STATUS_REGISTER]) else 0x08
      ensures registers[ERROR_REGISTER] == old(registers[ERROR_REGISTER])
      ensures registers[SECTOR_COUNT_REGISTER] == old(registers[SECTOR_COUNT_REGISTER])
      ensures transferred == 0 && (read ==> filled && buffer[..] == Sector(Linear(cylinder, head, sector)))
    {
      hide Cut, Linear;
      if read {
        FillBuffer();
        transferred := 0;
        filled := true;
      } else {
        ClearBuffer();
        transferred := 0;
      }
      if !verifyOnly {
        WriteRegister(STATUS_REGISTER, 0x08);
        WriteRegister(ALTERNATE_STATUS_REGISTER, 0x08);
      }
    }

    method Complete()
      requires Shape() && cylinder < 0x1_0000 && head < 16 && sector < 256
      modifies this`registers, this`dataIn, this`dataOut, this`filled, this`extended
      ensures Shape() && Address() == (cylinder, head, sector) && extended == 0 && !dataIn && !dataOut
      ensures registers[STATUS_REGISTER] == 0x50 && registers[ERROR_REGISTER] == old(registers[ERROR_REGISTER])
      ensures registers[SECTOR_COUNT_REGISTER] == old(registers[SECTOR_COUNT_REGISTER])
    {
      hide Cut;
      extended := 0;
      filled := false;
      dataIn := false;
      dataOut := false;
      StoreAddress();
      WriteRegister(STATUS_REGISTER, 0x50);
      WriteRegister(ALTERNATE_STATUS_REGISTER, 0x50);
    }

    static lemma LinearBelow(c: int, h: int, s: int)
      requires InRange(c, h, s)
      ensures Linear(c, h, s) < TOTAL
    {
    }

    /** The address of the next sector; an error at the end of the disk. */
    method StepAddress() returns (error: bool)
      requires InRange(cylinder, head, sector)
      modifies this`cylinder, this`head, this`sector
      ensures (cylinder, head, sector) == old(Next(cylinder, head, sector))
      ensures error <==> !InRange(cylinder, head, sector)
    {
      error := false;
      if sector + 1 > SECTORS {
        sector := 1;
        if head + 1 > HEADS {
          head := 1;
          cylinder := cylinder + 1;
          if cylinder > CYLINDERS {
            error := true;
          }
        } else {
          head := head + 1;
        }
      } else {
        sector := sector + 1;
      }
    }

    method ClearBuffer()
      requires buffer.Length == BYTES
      modifies buffer
    {
      forall i | 0 <= i < BYTES {
        buffer[i] := 0;
      }
    }

    /** The address in the registers. */
    ghost function Address(): (int, int, int)
      requires |registers| == 12
      reads this`registers
    {
      (registers[CYLINDER_HIGH_REGISTER] * 256 + registers[CYLINDER_LOW_REGISTER], registers[SDH_REGISTER] % 16,
       registers[SECTOR_NUMBER_REGISTER])
    }

    method StoreAddress()
      requires Shape() && cylinder < 0x1_0000 && head < 16 && sector < 256
      modifies this`registers
      ensures Shape() && Address() == (cylinder, head, sector)
      ensures registers[ERROR_REGISTER] == old(registers[ERROR_REGISTER])
      ensures registers[STATUS_REGISTER] == old(registers[STATUS_REGISTER])
      ensures registers[SECTOR_COUNT_REGISTER] == old(registers[SECTOR_COUNT_REGISTER])
    {
      hide Cut, WithHead;
      AddressParts(cylinder, registers[SDH_REGISTER], head);
      WriteRegister(SDH_REGISTER, WithHead(registers[SDH_REGISTER], head));
      WriteRegister(SECTOR_NUMBER_REGISTER, sector % 256);
      WriteRegister(CYLINDER_HIGH_REGISTER, cylinder / 256 % 256);
      WriteRegister(CYLINDER_LOW_REGISTER, cylinder % 256);
    }

    static lemma AddressParts(c: nat, sdh: Byte, h: nat)
      requires c < 0x1_0000 && h < 16
      ensures c / 256 % 256 < 256 && c % 256 < 256 && c / 256 % 256 * 256 + c % 256 == c && WithHead(sdh, h) % 16 == h
    {
    }

    method FillBuffer()
      requires Shape() && InRange(cylinder, head, sector)
      modifies buffer
      ensures buffer[..] == Sector(Linear(cylinder, head, sector))
    {
      var i := 0;
      while i < BYTES
        invariant 0 <= i <= BYTES
        invariant forall j :: 0 <= j < i ==> buffer[j] == device[cylinder - 1, head - 1, sector - 1, j]
      {
        buffer[i] := device[cylinder - 1, head - 1, sector - 1, i];
        i := i + 1;
      }
    }

    method FlushBuffer()
      requires Shape() && InRange(cylinder, head, sector)
      modifies device
      ensures Sector(Linear(cylinder, head, sector)) == buffer[..]
      ensures forall n: nat :: n < TOTAL && n != Linear(cylinder, head, sector) ==> Sector(n) == old(Sector(n))
    {
      var i := 0;
      while i < BYTES
        invariant 0 <= i <= BYTES
        invariant forall j :: 0 <= j < i ==> device[cylinder - 1, head - 1, sector - 1, j] == buffer[j]
        invariant forall c, h, s, j ::
          (0 <= c < CYLINDERS && 0 <= h < HEADS && 0 <= s < SECTORS && 0 <= j < BYTES &&
            (c, h, s) != (cylinder - 1, head - 1, sector - 1)) ==>
            device[c, h, s, j] == old(device[c, h, s, j])
      {
        device[cylinder - 1, head - 1, sector - 1, i] := buffer[i];
        i := i + 1;
      }
    }

    /** What follows the transfer of one word. */
    ghost predicate AfterWord(input: bool, lin: nat, k: nat, n: nat, done: nat)
      reads this, device, buffer
    {
      if done + 2 < BYTES then Transferring(input, lin, k, n, done + 2)
      else AfterSector(input, lin, k, n)
    }

    /** What follows a whole sector: the next one, or the end of the command. */
    ghost predicate AfterSector(input: bool, lin: nat, k: nat, n: nat)
      reads this, device, buffer
    {
      if k + 1 < n && lin + 1 < TOTAL then Transferring(input, lin + 1, k + 1, n, 0)
        else Finished(if k + 1 < n then 0x51 else 0x50)
    }

    method NextSector(input: bool)
      requires Shape() && dataIn == input && dataOut == !input && count < toAccess <= MAX_SECTORS_PER_ACCESS
      requires transferred == BYTES
      requires InRange(cylinder, head, sector)
      modifies this`registers, this`cylinder, this`head, this`sector, this`dataIn, this`dataOut, this`transferred,
        this`filled, this`extended, this`count, buffer
      ensures AfterSector(input, old(Linear(cylinder, head, sector)), old(count), old(toAccess))
    {
      hide Linear;
      count := count + 1;
      PrepareNextSectorForPIO(input, false);
    }

    /** readDataRegister; not ok where the source stops the emulator: after a transfer
        that was aborted at the end of the disk. */
    method ReadDataRegister() returns (ok: bool, r: nat)
      requires Valid()
      modifies this`registers, this`cylinder, this`head, this`sector, this`dataIn, this`dataOut, this`transferred,
        this`filled, this`extended, this`count, buffer
      ensures Valid() && (ok <==> old(!dataIn || InTransfer()))
      ensures old(!dataIn) ==> r == old(registers[DATA_REGISTER]) && registers == old(registers)
      ensures old(dataIn && InTransfer()) ==>
        var lin := old(Linear(cylinder, head, sector));
        r == WordOf(Sector(lin), old(transferred) / 2) && AfterWord(true, lin, old(count), toAccess, old(transferred))
    {
      hide Linear, Cut;
      if !dataIn {
        return true, registers[DATA_REGISTER];
      }
      if !(transferred < BYTES && filled) {
        return false, 0;
      }
      var low: int, high: int := buffer[transferred], buffer[transferred + 1];
      assert Cut(DATA_REGISTER, low + 256 * high) == low + 256 * high by { WordFits(low, high); }
      WriteRegister(DATA_REGISTER, low + 256 * high);
      ok, r := true, registers[DATA_REGISTER];
      transferred := transferred + 2;
      if transferred == BYTES {
        NextSector(true);
      }
    }

    static lemma WordFits(low: Byte, high: Byte)
      ensures var l: int, h: int := low, high; Cut(DATA_REGISTER, l + 256 * h) == l + 256 * h
    {
    }

    /** The buffer with a word stored in it. */
    static function Stored(bytes: seq<Byte>, done: nat, value: nat): seq<Byte>
      requires done + 1 < |bytes|
    {
      bytes[done := value % 256][done + 1 := value / 256 % 256]
    }

    /** writeDataRegister; a full buffer is written to the disk. */
    method WriteDataRegister(value: nat) returns (ok: bool)
      requires Valid()
      modifies this`registers, this`cylinder, this`head, this`sector, this`dataIn, this`dataOut, this`transferred,
        this`filled, this`extended, this`count, buffer, device
      ensures Valid() && (ok <==> old(!dataOut || InTransfer()))
      ensures old(!dataOut) ==>
        registers == old(registers)[DATA_REGISTER := value % 0x1_0000] && buffer[..] == old(buffer[..])
      ensures old(!dataOut) ==> forall n: nat :: n < TOTAL ==> Sector(n) == old(Sector(n))
      ensures old(dataOut && InTransfer()) ==>
        var lin, done, bytes := old(Linear(cylinder, head, sector)), old(transferred),
          Stored(old(buffer[..]), old(transferred), value);
        && AfterWord(false, lin, old(count), toAccess, done)
        && (forall n: nat :: n < TOTAL && (n != lin || done + 2 < BYTES) ==> Sector(n) == old(Sector(n)))
        && if done + 2 < BYTES then buffer[..] == bytes else Sector(lin) == bytes
    {
      hide Linear, Cut;
      if !dataOut {
        assert Cut(DATA_REGISTER, value) == value % 0x1_0000 by { DataCut(value); }
        WriteRegister(DATA_REGISTER, value);
        return true;
      }
      if !(transferred < BYTES) {
        return false;
      }
      ok := true;
      buffer[transferred] := value % 256;
      buffer[transferred + 1] := value / 256 % 256;
      assert buffer[..] == Stored(old(buffer[..]), transferred, value);
      transferred := transferred + 2;
      if transferred == BYTES {
        FlushBuffer();
        NextSector(false);
      }
    }

    static lemma DataCut(value: nat)
      ensures Cut(DATA_REGISTER, value) == value % 0x1_0000
    {
    }

    /** A command that ends at once. A transfer that it interrupts is not given up, although
        data is no longer requested. */
    twostate predicate Ended(status: nat, error: nat)
      reads this, device, buffer
    {
      && Shape() && registers[STATUS_REGISTER] == status && registers[ERROR_REGISTER] == error
      && dataIn == old(dataIn) && dataOut == old(dataOut) && transferred == old(transferred)
      && (Finished(status) <==> !old(InTransfer()))
    }

    /** What a read, write or verify command leaves behind. */
    twostate predicate Handled(read: bool, verifyOnly: bool)
      requires old(|registers| == 12)
      reads this, device, buffer
    {
      var (c, h, p) := old(Address());
      var n := old(if registers[SECTOR_COUNT_REGISTER] == 0 then MAX_SECTORS_PER_ACCESS
                   else registers[SECTOR_COUNT_REGISTER]);
      if !InRange(c, h, p) then
        Ended(0x51, 0x04) && extended == 0x21
      else if read && verifyOnly then
        Verified(Linear(c, h, p), n)
      else
        Transferring(read, Linear(c, h, p), 0, n, 0) && registers[ERROR_REGISTER] == 0
    }

    /** What verifying n sectors from number lin on leaves behind. The counter is not reset, so
        only what is above its old value is verified. On an error the count register says how
        many sectors are left behind the one where it occurred. */
    twostate predicate Verified(lin: nat, n: nat)
      requires n > 0 && old(|registers| == 12)
      reads this, device, buffer
    {
      var last := LastVerified(lin, n, old(count));
      if last < TOTAL then
        && Finished(0x50) && extended == 0 && count == 1 + (if old(count) < n then n else old(count))
        && registers[ERROR_REGISTER] == 0
        && registers[SECTOR_COUNT_REGISTER] == old(registers[SECTOR_COUNT_REGISTER])
        && var (c, h, p) := Address(); InRange(c, h, p) && Linear(c, h, p) == last
      else
        && Shape() && registers[STATUS_REGISTER] == 0x51 && registers[ERROR_REGISTER] == 0x04 && extended == 0x21
        && registers[SECTOR_COUNT_REGISTER] == last - TOTAL && Address() == (CYLINDERS + 1, 1, 1)
        && dataIn == old(dataIn) && dataOut == old(dataOut) && (Valid() <==> !InTransfer())
        && transferred == if FirstVerified(lin, old(count)) < TOTAL then 0 else old(transferred)
    }

    /** handleReadWriteSectors; not ok where the source stops the emulator. */
    method HandleReadWriteSectors(read: bool, verifyOnly: bool) returns (ok: bool)
      requires Shape()
      modifies this`registers, this`cylinder, this`head, this`sector, this`toAccess, this`count, this`dataIn,
        this`dataOut, this`transferred, this`filled, this`extended, buffer
      ensures ok <==> !Bit(old(registers[SDH_REGISTER]), 0x40)
      ensures ok ==> Handled(read, verifyOnly)
    {
      hide Linear, Cut, LastVerified;
      WriteRegister(ERROR_REGISTER, 0);
      if Bit(registers[SDH_REGISTER], 0x40) {
        return false;
      }
      ok := true;
      DetermineParameters();
      if cylinder == 0 || cylinder > CYLINDERS || head == 0 || head > HEADS || sector == 0 || sector > SECTORS {
        RejectAddress();
      } else if read && verifyOnly {
        ghost var checked := VerifyReadSectors();
      } else {
        StartTransfer(read);
      }
    }

    method DetermineParameters()
      requires Shape()
      modifies this`cylinder, this`head, this`sector, this`toAccess
      ensures (cylinder, head, sector) == Address()
      ensures toAccess == if registers[SECTOR_COUNT_REGISTER] == 0 then MAX_SECTORS_PER_ACCESS
        else registers[SECTOR_COUNT_REGISTER]
    {
      cylinder := registers[CYLINDER_HIGH_REGISTER] * 256 + registers[CYLINDER_LOW_REGISTER];
      head := registers[SDH_REGISTER] % 16;
      sector := registers[SECTOR_NUMBER_REGISTER];
      toAccess := registers[SECTOR_COUNT_REGISTER];
      if toAccess == 0 {
        toAccess := MAX_SECTORS_PER_ACCESS;
      }
    }

    method RejectAddress()
      requires Shape()
      modifies this`registers, this`extended
      ensures Ended(0x51, 0x04) && extended == 0x21
    {
      hide Cut;
      WriteRegister(ERROR_REGISTER, 0x04);
      extended := 0x21;
      WriteRegister(STATUS_REGISTER, 0x51);
      WriteRegister(ALTERNATE_STATUS_REGISTER, 0x51);
    }

    method StartTransfer(read: bool)
      requires Shape() && InRange(cylinder, head, sector) && 0 < toAccess <= MAX_SECTORS_PER_ACCESS
      modifies this`registers, this`cylinder, this`head, this`sector, this`count, this`dataIn, this`dataOut,
               this`transferred, this`filled, this`extended, buffer
      ensures Transferring(read, old(Linear(cylinder, head, sector)), 0, toAccess, 0)
      ensures registers[ERROR_REGISTER] == old(registers[ERROR_REGISTER])
    {
      hide Linear;
      LinearBelow(cylinder, head, sector);
      dataIn := read;
      dataOut := !read;
      count := 0;
      PrepareNextSectorForPIO(read, false);
    }

    /** The first sector that a verify command for n sectors from lin reads with the counter at
        k, and the last one, if there are any. */
    static function FirstVerified(lin: nat, k: nat): nat {
      if k == 0 then lin else lin + 1
    }

    static function LastVerified(lin: nat, n: nat, k: nat): nat
      requires n > 0
    {
      if k == 0 then lin + n - 1 else if k < n then lin + n - k else lin
    }

    /** The numbers from a up to b. */
    static ghost function Numbers(a: nat, b: nat): seq<nat> {
      seq(if a <= b then b - a else 0, i requires 0 <= i => a + i)
    }

    static lemma MoreNumbers(a: nat, b: nat)
      requires a <= b
      ensures Numbers(a, b + 1) == Numbers(a, b) + [b]
    {
    }

    /** A verify command reads the sectors it was given, up to the end of the disk, if and only
        if the counter was 0. */
    static lemma VerifiesWhatIsAsked(lin: nat, n: nat, k: nat)
      requires lin < TOTAL && 0 < n
      ensures var last := LastVerified(lin, n, k);
        Numbers(FirstVerified(lin, k), (if last < TOTAL then last else TOTAL - 1) + 1) ==
          Numbers(lin, if lin + n < TOTAL then lin + n else TOTAL) <==>
        k == 0
    {
      var asked := Numbers(lin, if lin + n < TOTAL then lin + n else TOTAL);
      assert asked[0] == lin;
    }

    /** Verifying goes on: the last sector read is the one before number lin + done. */
    ghost predicate Verifying(first: nat, k: nat, n: nat, done: nat)
      reads this, buffer
    {
      && Shape() && registers[STATUS_REGISTER] == 0x80 && registers[ERROR_REGISTER] == 0
      && 0 < done && count == k + done <= n == toAccess && transferred == 0
      && InRange(cylinder, head, sector) && Linear(cylinder, head, sector) == first + done - 1
    }

    ghost predicate VerifiedAll(last: nat, k: nat, n: nat)
      reads this, buffer
    {
      && Shape() && registers[STATUS_REGISTER] == 0x50 && !dataIn && !dataOut && extended == 0
      && registers[ERROR_REGISTER] == 0 && count == 1 + (if k < n then n else k)
      && var (c, h, p) := Address(); InRange(c, h, p) && Linear(c, h, p) == last
    }

    ghost predicate VerifyAborted(last: nat, n: nat)
      reads this, buffer
    {
      && Shape() && registers[STATUS_REGISTER] == 0x51 && registers[ERROR_REGISTER] == 0x04 && extended == 0x21
      && toAccess == n && n - count == last - TOTAL && Address() == (CYLINDERS + 1, 1, 1)
    }

    /** One round of the loop in verifyReadSectors after the first. */
    method VerifyNext(ghost lin: nat, ghost k: nat, ghost n: nat, ghost done: nat)
      requires 0 < n && Verifying(FirstVerified(lin, k), k, n, done)
      modifies this`registers, this`cylinder, this`head, this`sector, this`count, this`dataIn, this`dataOut,
        this`transferred, this`filled, this`extended, buffer
      ensures var first, last := FirstVerified(lin, k), LastVerified(lin, n, k);
        if k + done < n && first + done < TOTAL then Verifying(first, k, n, done + 1)
        else if k + done < n then VerifyAborted(last, n) && first + done == TOTAL <= last
        else VerifiedAll(last, k, n) && first + done == last + 1 <= TOTAL
      ensures registers[SECTOR_COUNT_REGISTER] == old(registers[SECTOR_COUNT_REGISTER])
      ensures registers[STATUS_REGISTER] != 0x50 ==>
        dataIn == old(dataIn) && dataOut == old(dataOut) && transferred == 0
    {
      hide Linear;
      LinearBelow(cylinder, head, sector);
      PrepareNextSectorForPIO(true, true);
      count := count + 1;
    }

    /** The first round. */
    method VerifyFirst(ghost lin: nat, ghost k: nat, ghost n: nat)
      requires Shape() && InRange(cylinder, head, sector) && 0 < n == toAccess && count == k
      requires registers[ERROR_REGISTER] == 0 && lin == Linear(cylinder, head, sector)
      modifies this`registers, this`cylinder, this`head, this`sector, this`count, this`dataIn, this`dataOut,
        this`transferred, this`filled, this`extended, buffer
      ensures var first, last := FirstVerified(lin, k), LastVerified(lin, n, k);
        if k < n && first < TOTAL then Verifying(first, k, n, 1) && transferred == 0
        else if k < n then VerifyAborted(last, n) && first == TOTAL <= last && transferred == old(transferred)
        else VerifiedAll(last, k, n) && first == last + 1 <= TOTAL
      ensures registers[SECTOR_COUNT_REGISTER] == old(registers[SECTOR_COUNT_REGISTER])
      ensures registers[STATUS_REGISTER] != 0x50 ==> dataIn == old(dataIn) && dataOut == old(dataOut)
    {
      hide Linear;
      LinearBelow(cylinder, head, sector);
      PrepareNextSectorForPIO(true, true);
      count := count + 1;
    }

    /** Between two rounds; checked: the numbers of the sectors that were read. */
    ghost predicate VerifyState(first: nat, last: nat, k: nat, n: nat, done: nat, checked: seq<nat>)
      reads this, buffer
    {
      if |registers| == 12 && registers[STATUS_REGISTER] == 0x80 then
        Verifying(first, k, n, done) && checked == Numbers(first, first + done)
      else if last < TOTAL then
        VerifiedAll(last, k, n) && checked == Numbers(first, last + 1)
      else
        VerifyAborted(last, n) && checked == Numbers(first, TOTAL)
    }

    /** The loop of verifyReadSectors, which ends with the busy bit. */
    method VerifyLoop(ghost lin: nat) returns (ghost checked: seq<nat>)
      requires Shape() && InRange(cylinder, head, sector) && 0 < toAccess && registers[ERROR_REGISTER] == 0
      requires lin == Linear(cylinder, head, sector)
      modifies this`registers, this`cylinder, this`head, this`sector, this`count, this`dataIn, this`dataOut,
        this`transferred, this`filled, this`extended, buffer
      ensures var k, n := old(count), toAccess;
        var first, last := FirstVerified(lin, k), LastVerified(lin, n, k);
        && checked == Numbers(first, (if last < TOTAL then last else TOTAL - 1) + 1)
        && if last < TOTAL then VerifiedAll(last, k, n)
           else VerifyAborted(last, n) && (dataIn, dataOut) == old((dataIn, dataOut)) &&
                  transferred == if first < TOTAL then 0 else old(transferred)
      ensures Shape() && registers[SECTOR_COUNT_REGISTER] == old(registers[SECTOR_COUNT_REGISTER])
    {
      hide Linear, Numbers, Bit, FirstVerified, LastVerified, InRange, Address;
      ghost var k, n := count, toAccess;
      ghost var first, last := FirstVerified(lin, k), LastVerified(lin, n, k);
      StatusBits();
      VerifyFirst(lin, k, n);
      ghost var done := 1;
      checked := Numbers(first, first + (if registers[STATUS_REGISTER] == 0x80 then 1 else 0));
      while count <= toAccess && Bit(registers[STATUS_REGISTER], 0x80)
        invariant done <= n + 1 && Shape() && VerifyState(first, last, k, n, done, checked)
        invariant registers[SECTOR_COUNT_REGISTER] == old(registers[SECTOR_COUNT_REGISTER])
        invariant registers[STATUS_REGISTER] != 0x50 ==>
          (dataIn, dataOut) == old((dataIn, dataOut)) &&
          transferred == if first < TOTAL then 0 else old(transferred)
        decreases n + 1 - done
      {
        VerifyNext(lin, k, n, done);
        MoreNumbers(first, first + done);
        if registers[STATUS_REGISTER] == 0x80 {
          checked := checked + [first + done];
        }
        done := done + 1;
      }
    }

    /** verifyReadSectors; checked: the numbers of the sectors that were read. */
    method VerifyReadSectors() returns (ghost checked: seq<nat>)
      requires Shape() && InRange(cylinder, head, sector) && 0 < toAccess <= MAX_SECTORS_PER_ACCESS
      requires registers[ERROR_REGISTER] == 0
      modifies this`registers, this`cylinder, this`head, this`sector, this`count, this`dataIn, this`dataOut,
        this`transferred, this`filled, this`extended, buffer
      ensures Verified(old(Linear(cylinder, head, sector)), toAccess)
      ensures var lin, last := old(Linear(cylinder, head, sector)),
          LastVerified(old(Linear(cylinder, head, sector)), toAccess, old(count));
        checked == Numbers(FirstVerified(lin, old(count)), (if last < TOTAL then last else TOTAL - 1) + 1)
    {
      hide Linear, Numbers, Bit, FirstVerified;
      StatusBits();
      LinearBelow(cylinder, head, sector);
      checked := VerifyLoop(Linear(cylinder, head, sector));
      if Bit(registers[STATUS_REGISTER], 0x01) {
        var unverified := toAccess - count;
        if unverified == MAX_SECTORS_PER_ACCESS {
          unverified := 0;
        }
        WriteRegister(SECTOR_COUNT_REGISTER, unverified % 256);
      }
    }

    /** A verify command for two sectors leaves the counter at 3; given again, it reads none. */
    static lemma VerifiedOnce()
      ensures Numbers(FirstVerified(0, 0), LastVerified(0, 2, 0) + 1) == [0, 1]
      ensures Numbers(FirstVerified(0, 3), LastVerified(0, 2, 3) + 1) == []
    {
    }

    static lemma StatusBits()
      ensures Bit(0x80, 0x80) && !Bit(0x50, 0x80) && !Bit(0x51, 0x80) && !Bit(0x50, 0x01) && Bit(0x51, 0x01)
    {
    }

    /** What executing a command leaves behind, if the source does not stop the emulator. */
    twostate predicate Executed(cmd: nat)
      requires old(|registers| == 12)
      reads this, device, buffer
    {
      if cmd == 0x03 then Ended(0x50, old(extended) % 256)
      else if IsAccess(cmd) then Handled(IsRead(cmd), IsVerify(cmd))
      else Ended(0x51, 0x04) && extended == 0x20
    }

    /** The commands that address sectors. */
    static predicate IsAccess(cmd: nat) {
      cmd in {0x20, 0x21, 0x30, 0x31, 0x3c, 0x40, 0x41}
    }

    static predicate IsRead(cmd: nat) {
      cmd in {0x20, 0x21, 0x40, 0x41}
    }

    static predicate IsVerify(cmd: nat) {
      cmd in {0x40, 0x41}
    }

    /** executeCommand */
    method ExecuteCommand() returns (ok: bool)
      requires Shape()
      modifies this`registers, this`cylinder, this`head, this`sector, this`toAccess, this`count, this`dataIn,
        this`dataOut, this`transferred, this`filled, this`extended, buffer
      ensures var cmd := old(registers[COMMAND_REGISTER]);
        && (ok <==> IsAccess(cmd) ==> !Bit(old(registers[SDH_REGISTER]), 0x40))
        && (ok ==> Executed(cmd))
    {
      hide Linear, Cut, Bit, LastVerified, FirstVerified, InRange;
      ghost var c, h, p := Address().0, Address().1, Address().2;
      BusyBit();
      var cmd := registers[COMMAND_REGISTER];
      ok := true;
      if cmd == 0x03 {
        ErrorCut(extended);
        WriteRegister(ERROR_REGISTER, extended);
        WriteRegister(STATUS_REGISTER, 0x50);
        WriteRegister(ALTERNATE_STATUS_REGISTER, 0x50);
      } else if cmd == 0x20 || cmd == 0x21 {
        ok := HandleReadWriteSectors(true, false);
      } else if cmd == 0x30 || cmd == 0x31 {
        ok := HandleReadWriteSectors(false, false);
      } else if cmd == 0x40 || cmd == 0x41 {
        ok := HandleReadWriteSectors(true, true);
      } else if cmd == 0x3c {
        ok := HandleReadWriteSectors(false, false);
      } else {
        WriteRegister(ERROR_REGISTER, 0x04);
        extended := 0x20;
        WriteRegister(STATUS_REGISTER, 0x51);
        WriteRegister(ALTERNATE_STATUS_REGISTER, 0x51);
      }
    }

    static lemma ErrorCut(value: nat)
      ensures Cut(ERROR_REGISTER, value) == value % 256
    {
    }

    /** The busy bit, which no access sees. */
    method BusyBit()
      requires Shape()
      modifies this`registers
      ensures Shape() && forall i :: 0 <= i < 12 && i != STATUS_REGISTER && i != ALTERNATE_STATUS_REGISTER ==>
        registers[i] == old(registers[i])
    {
      hide Cut;
      if !Bit(registers[STATUS_REGISTER], 0x08) {
        var x, y := registers[STATUS_REGISTER], registers[ALTERNATE_STATUS_REGISTER];
        WriteRegister(STATUS_REGISTER, if Bit(x, 0x80) then x else x + 0x80);
        WriteRegister(ALTERNATE_STATUS_REGISTER, if Bit(y, 0x80) then y else y + 0x80);
      }
    }

    /** The command block registers 1 to 6 as the host addresses them. */
    static function RegisterAt(address: nat): nat
      requires 1 <= address <= 6
    {
      address + 1
    }

    /** writeIDEDeviceRegister for these registers: ignored while the drive is busy. */
    method WriteParameter(address: nat, value: nat)
      requires Valid() && 1 <= address <= 6 && value < 0x100
      modifies this`registers
      ensures Valid()
      ensures old(registers[STATUS_REGISTER]) < 0x80 ==>
        registers == old(registers)[RegisterAt(address) := if address == 6 then WithFixedBits(value) else value]
    {
      hide Cut, WithFixedBits, Linear;
      if !Bit(registers[STATUS_REGISTER], 0x80) {
        WriteRegister(RegisterAt(address), if address == 6 then WithFixedBits(value) else value);
      }
    }

    /** Register 7: the command is stored and executed, unless the drive is busy. */
    method Command(cmd: nat) returns (ok: bool)
      requires Shape()
      modifies this`registers, this`cylinder, this`head, this`sector, this`toAccess, this`count, this`dataIn,
        this`dataOut, this`transferred, this`filled, this`extended, buffer
      ensures old(Bit(registers[STATUS_REGISTER], 0x80)) ==>
        ok && registers == old(registers) && buffer[..] == old(buffer[..]) && (Valid() <==> old(Valid()))
      ensures !old(Bit(registers[STATUS_REGISTER], 0x80)) ==>
        && (ok <==> IsAccess(cmd % 256) ==> !Bit(old(registers[SDH_REGISTER]), 0x40))
        && (ok ==> Executed(cmd % 256))
    {
      hide Linear, Bit, LastVerified, IsAccess, IsRead, IsVerify;
      if Bit(registers[STATUS_REGISTER], 0x80) {
        return true;
      }
      WriteRegister(COMMAND_REGISTER, cmd);
      ok := ExecuteCommand();
    }

    /** initializeIDEDevice: power on or reset. The sectors are kept. */
    method Initialize()
      requires device.Length0 == CYLINDERS && device.Length1 == HEADS && device.Length2 == SECTORS
      requires device.Length3 == BYTES
      requires buffer.Length == BYTES
      modifies this`registers, this`cylinder, this`head, this`sector, this`toAccess, this`count, this`dataIn,
        this`dataOut, this`transferred, this`filled, this`extended, buffer
      ensures Finished(0x50)
    {
      extended := 0;
      filled, dataIn, dataOut := false, false, false;
      ClearBuffer();
      cylinder, head, sector := 0, 0, 0;
      toAccess, count, transferred := 0, 0, 0;
      registers := [0, 0, 0, 0, 0, 0, 0, 0xa0, 0x50, 0, 0x50, 0x02];
    }

    constructor ()
      ensures Finished(0x50) && fresh(device) && fresh(buffer)
    {
      device := new Byte[CYLINDERS, HEADS, SECTORS, BYTES]((c, h, s, i) => 0);
      buffer := new Byte[BYTES];
      registers := [];
      new;
      Initialize();
    }
  }

  // ----- a host that waits for the data request bit -----

  /** Address, count and command of a transfer. */
  method Issue(d: Drive, c: nat, h: nat, p: nat, n: nat, cmd: nat)
    requires d.Idle() && InRange(c, h, p) && 1 <= n <= 256 && cmd in {0x20, 0x30}
    modifies d`registers, d`cylinder, d`head, d`sector, d`toAccess, d`count, d`dataIn, d`dataOut, d`transferred,
      d`filled, d`extended, d.buffer
    ensures d.Transferring(cmd == 0x20, Linear(c, h, p), 0, n, 0)
  {
    hide Linear, WithFixedBits, Bit;
    HeadBits(h);
    Drive.StatusBits();
    d.WriteParameter(2, n % 256);
    d.WriteParameter(3, p);
    d.WriteParameter(4, c % 256);
    d.WriteParameter(5, c / 256);
    d.WriteParameter(6, h);
    var ok := d.Command(cmd);
  }

  lemma HeadBits(h: nat)
    requires h <= 4
    ensures WithFixedBits(h) % 16 == h && !Bit(WithFixedBits(h), 0x40)
  {
  }

  /** The words of sector k of a transfer, as far as they were written. */
  ghost predicate HoldsWords(bytes: seq<Byte>, words: seq<Word>, k: nat, m: nat)
    requires |bytes| == BYTES && m <= 256 && 256 * k + m <= |words|
  {
    forall j :: 0 <= j < m ==> WordOf(bytes, j) == words[256 * k + j]
  }

  /** Write n sectors. All are written, or those up to the end of the disk. */
  method WriteSectors(d: Drive, c: nat, h: nat, p: nat, n: nat, words: seq<Word>) returns (moved: nat)
    requires d.Idle() && InRange(c, h, p) && 1 <= n <= 256 && |words| == 256 * n
    modifies d, d.buffer, d.device
    ensures moved == if Linear(c, h, p) + n <= TOTAL then n else TOTAL - Linear(c, h, p)
    ensures d.Finished(if moved == n then 0x50 else 0x51)
    ensures var lin := Linear(c, h, p);
      forall i: nat :: lin <= i < lin + moved ==> HoldsWords(d.Sector(i), words, i - lin, 256)
    ensures forall i: nat :: i < TOTAL && !(Linear(c, h, p) <= i < Linear(c, h, p) + moved) ==>
      d.Sector(i) == old(d.Sector(i))
  {
    hide Linear, WordOf, HoldsWords;
    ghost var lin := Linear(c, h, p);
    Issue(d, c, h, p, n, 0x30);
    moved := 0;
    while d.registers[STATUS_REGISTER] == 0x08
      invariant 0 <= moved <= n && lin + moved <= TOTAL
      invariant if moved < n && lin + moved < TOTAL then d.Transferring(false, lin + moved, moved, n, 0)
        else d.Finished(if moved < n then 0x51 else 0x50)
      invariant forall i: nat :: lin <= i < lin + moved ==> HoldsWords(d.Sector(i), words, i - lin, 256)
      invariant forall i: nat :: i < TOTAL && !(lin <= i < lin + moved) ==> d.Sector(i) == old(d.Sector(i))
      decreases n - moved
    {
      WriteSector(d, lin + moved, moved, n, words);
      moved := moved + 1;
    }
  }

  method WriteSector(d: Drive, ghost lin: nat, k: nat, n: nat, words: seq<Word>)
    requires d.Transferring(false, lin, k, n, 0) && k < n && |words| == 256 * n && lin < TOTAL
    modifies d, d.buffer, d.device
    ensures d.AfterSector(false, lin, k, n)
    ensures HoldsWords(d.Sector(lin), words, k, 256)
    ensures forall i: nat :: i < TOTAL && i != lin ==> d.Sector(i) == old(d.Sector(i))
  {
    hide Linear, WordOf, HoldsWords;
    var j := 0;
    assert HoldsWords(d.buffer[..], words, k, 0) by { NoWords(d.buffer[..], words, k); }
    while j < 256
      invariant 0 <= j <= 256
      invariant if j < 256 then d.Transferring(false, lin, k, n, 2 * j) else d.AfterSector(false, lin, k, n)
      invariant HoldsWords(if j < 256 then d.buffer[..] else d.Sector(lin), words, k, j)
      invariant forall i: nat :: i < TOTAL && (i != lin || j < 256) ==> d.Sector(i) == old(d.Sector(i))
    {
      MoreWords(d.buffer[..], words, k, j);
      var ok := d.WriteDataRegister(words[256 * k + j]);
      j := j + 1;
    }
  }

  lemma NoWords(bytes: seq<Byte>, words: seq<Word>, k: nat)
    requires |bytes| == BYTES && 256 * k <= |words|
    ensures HoldsWords(bytes, words, k, 0)
  {
  }

  lemma MoreWords(bytes: seq<Byte>, words: seq<Word>, k: nat, j: nat)
    requires |bytes| == BYTES && j < 256 && 256 * k + j < |words| && HoldsWords(bytes, words, k, j)
    ensures HoldsWords(Drive.Stored(bytes, 2 * j, words[256 * k + j]), words, k, j + 1)
  {
    var w := words[256 * k + j];
    var now := Drive.Stored(bytes, 2 * j, w);
    forall i | 0 <= i <= j
      ensures WordOf(now, i) == words[256 * k + i]
    {
      if i < j {
        assert WordOf(bytes, i) == words[256 * k + i];
      }
    }
  }

  /** Read n sectors. */
  method ReadSectors(d: Drive, c: nat, h: nat, p: nat, n: nat) returns (words: seq<Word>, moved: nat)
    requires d.Idle() && InRange(c, h, p) && 1 <= n <= 256
    modifies d, d.buffer
    ensures moved == if Linear(c, h, p) + n <= TOTAL then n else TOTAL - Linear(c, h, p)
    ensures d.Finished(if moved == n then 0x50 else 0x51) && |words| == 256 * moved
    ensures var lin := Linear(c, h, p);
      forall i: nat :: lin <= i < lin + moved ==> HoldsWords(d.Sector(i), words, i - lin, 256)
  {
    hide Linear, WordOf, HoldsWords;
    ghost var lin := Linear(c, h, p);
    Issue(d, c, h, p, n, 0x20);
    moved, words := 0, [];
    while d.registers[STATUS_REGISTER] == 0x08
      invariant 0 <= moved <= n && lin + moved <= TOTAL && |words| == 256 * moved
      invariant if moved < n && lin + moved < TOTAL then d.Transferring(true, lin + moved, moved, n, 0)
        else d.Finished(if moved < n then 0x51 else 0x50)
      invariant forall i: nat :: lin <= i < lin + moved ==> HoldsWords(d.Sector(i), words, i - lin, 256)
      decreases n - moved
    {
      var more := ReadSector(d, lin + moved, moved, n);
      forall i: nat | lin <= i <= lin + moved
        ensures HoldsWords(d.Sector(i), words + more, i - lin, 256)
      {
        if i < lin + moved {
          WordsKept(d.Sector(i), words, more, i - lin);
        } else {
          WordsAdded(d.Sector(i), words, more, i - lin);
        }
      }
      words := words + more;
      moved := moved + 1;
    }
  }

  method ReadSector(d: Drive, ghost lin: nat, ghost k: nat, ghost n: nat) returns (words: seq<Word>)
    requires d.Transferring(true, lin, k, n, 0) && k < n && lin < TOTAL
    modifies d, d.buffer
    ensures d.AfterSector(true, lin, k, n)
    ensures |words| == 256 && HoldsWords(d.Sector(lin), words, 0, 256)
  {
    hide Linear, WordOf;
    words := [];
    var j := 0;
    while j < 256
      invariant 0 <= j <= 256 && |words| == j
      invariant if j < 256 then d.Transferring(true, lin, k, n, 2 * j) else d.AfterSector(true, lin, k, n)
      invariant HoldsWords(d.Sector(lin), words, 0, j)
    {
      var ok, w := d.ReadDataRegister();
      words := words + [w];
      j := j + 1;
    }
  }

  lemma WordsKept(bytes: seq<Byte>, words: seq<Word>, more: seq<Word>, k: nat)
    requires |bytes| == BYTES && 256 * k + 256 <= |words| && HoldsWords(bytes, words, k, 256)
    ensures HoldsWords(bytes, words + more, k, 256)
  {
    hide WordOf;
  }

  lemma WordsAdded(bytes: seq<Byte>, words: seq<Word>, more: seq<Word>, k: nat)
    requires |bytes| == BYTES && |words| == 256 * k && |more| == 256 && HoldsWords(bytes, more, 0, 256)
    ensures HoldsWords(bytes, words + more, k, 256)
  {
    hide WordOf;
    forall j | 0 <= j < 256
      ensures WordOf(bytes, j) == (words + more)[256 * k + j]
    {
      assert WordOf(bytes, j) == more[256 * 0 + j];
    }
  }

  /** Writing n sectors and reading them again returns the same words. */
  method WriteThenRead(d: Drive, c: nat, h: nat, p: nat, n: nat, words: seq<Word>) returns (back: seq<Word>)
    requires d.Idle() && InRange(c, h, p) && 1 <= n <= 256 && |words| == 256 * n
    requires Linear(c, h, p) + n <= TOTAL
    modifies d, d.buffer, d.device
    ensures back == words
    ensures d.Finished(0x50)
    ensures forall i: nat :: i < TOTAL && !(Linear(c, h, p) <= i < Linear(c, h, p) + n) ==>
      d.Sector(i) == old(d.Sector(i))
  {
    hide Linear, HoldsWords;
    var moved := WriteSectors(d, c, h, p, n, words);
    back, moved := ReadSectors(d, c, h, p, n);
    forall i | 0 <= i < |words|
      ensures back[i] == words[i]
    {
      SameWord(d.Sector(Linear(c, h, p) + i / 256), back, words, i / 256, i % 256);
    }
  }

  lemma SameWord(bytes: seq<Byte>, a: seq<Word>, b: seq<Word>, k: nat, j: nat)
    requires |bytes| == BYTES && j < 256 && 256 * k + 256 <= |a| && 256 * k + 256 <= |b|
    requires HoldsWords(bytes, a, k, 256) && HoldsWords(bytes, b, k, 256)
    ensures a[256 * k + j] == b[256 * k + j]
  {
    hide WordOf;
    assert WordOf(bytes, j) == a[256 * k + j];
  }
}
