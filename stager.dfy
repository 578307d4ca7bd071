/** CopyAndLoadLibrary: copy the watched library to the staging path,
    overwriting any earlier copy, then load the staged copy. The copy's
    success and LoadLibraryW's result are inputs. */
module Stager {
  import opened Win32

  /** The calls CopyAndLoadLibrary makes: always the copy, and the load of
      the staged copy only when the copy succeeded. */
  function StageTrace(libraryPath: WString, destinationPath: WString, copyOk: bool): seq<Call>
  {
    [CopyFile(libraryPath, destinationPath)] + (if copyOk then [LoadLibrary(destinationPath)] else [])
  }

  /** main.cpp CopyAndLoadLibrary. `copyOk` is whether copy_file succeeded
      and `loaded` is what LoadLibraryW(destinationPath) returned (None for NULL). */
  method CopyAndLoadLibrary(libraryPath: WString, destinationPath: WString, copyOk: bool, loaded: Option<Handle>)
    returns (libraryHandle: Option<Handle>, calls: seq<Call>)
    ensures calls == StageTrace(libraryPath, destinationPath, copyOk)
    ensures !copyOk ==> libraryHandle == None
    ensures copyOk ==> libraryHandle == loaded
  {
    calls := [CopyFile(libraryPath, destinationPath)];
    if !copyOk {
      return None, calls;
    }
    calls := calls + [LoadLibrary(destinationPath)];
    if loaded == None {
      return None, calls;
    }
    return loaded, calls;
  }

  /** A failed copy attempts no load; a load is only ever of the staged copy,
      and the original library is only ever read, never written. */
  lemma StageTraceLoadsStagedCopy(libraryPath: WString, destinationPath: WString, copyOk: bool)
    ensures StageTrace(libraryPath, destinationPath, copyOk)[0] == CopyFile(libraryPath, destinationPath)
    ensures (exists p :: LoadLibrary(p) in StageTrace(libraryPath, destinationPath, copyOk)) <==> copyOk
    ensures forall c :: c in StageTrace(libraryPath, destinationPath, copyOk) ==>
      c == CopyFile(libraryPath, destinationPath) || c == LoadLibrary(destinationPath)
  {
    if copyOk {
      assert LoadLibrary(destinationPath) in StageTrace(libraryPath, destinationPath, copyOk);
    }
  }
}
