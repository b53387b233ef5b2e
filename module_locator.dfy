/**
 * Module lookup: the base address of the first loaded module whose name
 * equals the wanted one after both are lower-cased. The module list comes
 * from the attached process, and `lower` stands for str.lower.
 */
module ModuleLocator {
  import opened Wrappers
  import opened MemoryAccess

  datatype ModuleInfo = ModuleInfo(name: string, base: U64)

  datatype LocateError = ModuleNotFound(name: string)

  predicate NameMatches(lower: string -> string, m: ModuleInfo, name: string) {
    lower(m.name) == lower(name)
  }

  /** get_module_base: linear search with an early return on the first match. */
  method GetModuleBase(modules: seq<ModuleInfo>, name: string, lower: string -> string)
    returns (r: Result<U64, LocateError>)
    ensures r.Failure? <==> forall i :: 0 <= i < |modules| ==> !NameMatches(lower, modules[i], name)
    ensures r.Failure? ==> r.error == ModuleNotFound(name)
    ensures r.Success? ==>
              exists i :: 0 <= i < |modules| && NameMatches(lower, modules[i], name) && r.value == modules[i].base &&
                          forall j :: 0 <= j < i ==> !NameMatches(lower, modules[j], name)
  {
    for i := 0 to |modules|
      invariant forall j :: 0 <= j < i ==> !NameMatches(lower, modules[j], name)
    {
      if lower(modules[i].name) == lower(name) {
        return Success(modules[i].base);
      }
    }
    return Failure(ModuleNotFound(name));
  }
}
