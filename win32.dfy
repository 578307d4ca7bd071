/** The Win32 vocabulary shared by the model: raw bytes, UTF-16 code units,
    module handles, file-probe outcomes and the calls the tool makes into the
    operating system. Every OS call is replaced by an outcome supplied as an
    input and by an entry in a recorded call trace. */
module Win32 {

  /** A BYTE of the change-notification buffer. */
  newtype Byte = b: int | 0 <= b < 0x100

  /** A WCHAR: one UTF-16 code unit (surrogates included). */
  newtype WChar = c: int | 0 <= c < 0x1_0000

  /** A wide string (wstring, or the native form of a filesystem::path). */
  type WString = seq<WChar>

  datatype Option<T> = None | Some(value: T)

  /** A non-NULL HMODULE; NULL is Option.None. */
  datatype Handle = Handle(id: nat)

  /** GetLastError() code that WaitForFile retries on. */
  const ERROR_SHARING_VIOLATION: nat := 32

  /** Outcome of one CreateFileW call on the library: a valid handle, or
      INVALID_HANDLE_VALUE together with the GetLastError() code. */
  datatype Probe = Opened | Failed(errorCode: nat)

  predicate IsSharingViolation(p: Probe) {
    p.Failed? && p.errorCode == ERROR_SHARING_VIOLATION
  }

  /** One OS call, as it appears in a recorded trace. */
  datatype Call =
    | CreateFile(path: WString)            // open of the library for a lock probe
    | CloseHandle(path: WString)           // close of that probe handle
    | Sleep(ms: nat)
    | CopyFile(source: WString, target: WString)  // copy_file with overwrite_existing
    | LoadLibrary(path: WString)
    | FreeLibrary(lib: Handle)

  /** Number of occurrences of `c` in `calls`. */
  function Occurrences(calls: seq<Call>, c: Call): (n: nat)
    ensures n <= |calls|
    ensures n == 0 <==> c !in calls
  {
    if calls == [] then 0
    else (if calls[0] == c then 1 else 0) + Occurrences(calls[1..], c)
  }

  lemma {:induction false} OccurrencesAppend(a: seq<Call>, b: seq<Call>, c: Call)
    ensures Occurrences(a + b, c) == Occurrences(a, c) + Occurrences(b, c)
  {
    if a == [] {
      assert a + b == b;
    } else {
      assert (a + b)[1..] == a[1..] + b;
      OccurrencesAppend(a[1..], b, c);
    }
  }
}
