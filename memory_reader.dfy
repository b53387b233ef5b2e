/**
 * The remote-memory accessor: an object that owns a handle to the target
 * process and reads 64-bit words out of that process's address space.
 * The operating system appears only as two things fixed at construction:
 * an oracle standing for OpenProcess and a table of the answers
 * ReadProcessMemory gives in the target process; two ghost
 * logs record which of those calls the accessor actually issued.
 */
module MemoryAccess {
  import opened Wrappers

  /** The lowest and the highest address that read_uint64 accepts as a plausible pointer. */
  const MinAddress: int := 0x1_0000
  const MaxAddress: int := 0x7FFF_FFFF_FFFF

  /** ERROR_PARTIAL_COPY, the last-error code of a read that transferred only part of the bytes. */
  const ErrorPartialCopy: nat := 299

  type U64 = x: int | 0 <= x < 0x1_0000_0000_0000_0000

  /** A process handle. 0 stands for both falsy values the field can hold: None and a null handle. */
  type Handle = nat

  /**
   * What one ReadProcessMemory call of 8 bytes reports: its BOOL result, the
   * number of bytes it says it transferred, the contents of the 8-byte buffer
   * afterwards, and what GetLastError returns right after it.
   */
  datatype OsRead = OsRead(success: bool, transferred: nat, value: U64, lastError: nat)

  /**
   * What ReadProcessMemory(handle, address, buffer, 8, &bytesRead) answers in
   * the target process, by address. An address the table does not list is an
   * unreadable page: the call fails, transfers nothing and leaves
   * ERROR_PARTIAL_COPY.
   */
  type Memory = map<int, OsRead>

  function OsReadAt(mem: Memory, a: int): OsRead {
    if a in mem then mem[a] else OsRead(false, 0, 0, ErrorPartialCopy)
  }

  /** OpenProcess(PROCESS_ALL_ACCESS, False, pid). */
  type OpenOracle = int -> Handle

  datatype OpenError = OpenFailed(pid: int)

  datatype ReadError =
    | ProcessNotOpen
    | SuspiciousAddress(address: int)
    | ReadFailed(address: int, lastError: nat)

  predicate PlausibleAddress(a: int) {
    MinAddress <= a <= MaxAddress
  }

  /** The outcome of read_uint64: the three checks in the order the method makes them. */
  function ReadU64Spec(h: Handle, mem: Memory, a: int): Result<U64, ReadError> {
    if h == 0 then Failure(ProcessNotOpen)
    else if a > MaxAddress || a < MinAddress then Failure(SuspiciousAddress(a))
    else
      var o := OsReadAt(mem, a);
      if !o.success || o.transferred != 8 then Failure(ReadFailed(a, o.lastError))
      else Success(o.value)
  }

  /** The ReadProcessMemory calls read_uint64 issues: one, at `a`, once both checks pass. */
  function IssuedReads(h: Handle, a: int): seq<int> {
    if h != 0 && PlausibleAddress(a) then [a] else []
  }

  /**
   * What read_uint64 promises: a value only when the handle is set, the address
   * is plausible, the call succeeds and exactly 8 bytes were transferred (so a
   * partial read, error 299 included, is an error); an implausible address is
   * refused before any read is issued.
   */
  lemma ReadU64Contract(h: Handle, mem: Memory, a: int)
    ensures ReadU64Spec(h, mem, a).Success?
        <==> h != 0 && PlausibleAddress(a) && OsReadAt(mem, a).success && OsReadAt(mem, a).transferred == 8
    ensures ReadU64Spec(h, mem, a).Success? ==>
              ReadU64Spec(h, mem, a).value == OsReadAt(mem, a).value && IssuedReads(h, a) == [a]
    ensures h == 0 ==> ReadU64Spec(h, mem, a) == Failure(ProcessNotOpen) && IssuedReads(h, a) == []
    ensures h != 0 && !PlausibleAddress(a) ==>
              ReadU64Spec(h, mem, a) == Failure(SuspiciousAddress(a)) && IssuedReads(h, a) == []
    ensures h != 0 && PlausibleAddress(a) && OsReadAt(mem, a).lastError == ErrorPartialCopy && OsReadAt(mem, a).transferred < 8 ==>
              ReadU64Spec(h, mem, a) == Failure(ReadFailed(a, ErrorPartialCopy))
  {
  }

  class MemoryReader {
    /** The process handle; set by OpenProcess and never cleared. */
    var handle: Handle
    /** What ReadProcessMemory answers in the process this reader is for. */
    const memory: Memory
    const osOpen: OpenOracle
    /** Addresses of the ReadProcessMemory calls issued so far, oldest first. */
    ghost var osReads: seq<int>
    /** Handles passed to CloseHandle so far, oldest first. */
    ghost var closed: seq<Handle>

    constructor (memory: Memory, osOpen: OpenOracle)
      ensures handle == 0 && this.memory == memory && this.osOpen == osOpen
      ensures osReads == [] && closed == []
    {
      handle := 0;
      this.memory := memory;
      this.osOpen := osOpen;
      osReads := [];
      closed := [];
    }

    /** open_process: the handle field takes whatever OpenProcess returns, then a falsy handle is an error. */
    method OpenProcess(pid: int) returns (r: Outcome<OpenError>)
      modifies this`handle
      ensures handle == osOpen(pid)
      ensures r == if handle == 0 then Fail(OpenFailed(pid)) else Pass
    {
      handle := osOpen(pid);
      if handle == 0 {
        return Fail(OpenFailed(pid));
      }
      return Pass;
    }

    /** close: hands a set handle to CloseHandle and leaves the field as it was. */
    method Close()
      modifies this`closed
      ensures closed == old(closed) + if handle != 0 then [handle] else []
    {
      if handle != 0 {
        closed := closed + [handle];
      }
    }

    /** read_uint64: the handle check, then the address check, then one 8-byte read. */
    method ReadU64(address: int) returns (r: Result<U64, ReadError>)
      modifies this`osReads
      ensures r == ReadU64Spec(handle, memory, address)
      ensures osReads == old(osReads) + IssuedReads(handle, address)
    {
      if handle == 0 {
        return Failure(ProcessNotOpen);
      }
      if address > MaxAddress || address < MinAddress {
        return Failure(SuspiciousAddress(address));
      }
      var o := OsReadAt(memory, address);
      osReads := osReads + [address];
      if !o.success || o.transferred != 8 {
        return Failure(ReadFailed(address, o.lastError));
      }
      return Success(o.value);
    }
  }
}
