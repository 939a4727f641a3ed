/** `ImplPriorityService`: the priority lookup, optional-or-throw. */
module PriorityService {
  import opened Wrappers
  import opened Model
  import PriorityRepository

  /** A stored priority is returned as the repository gives it; an empty
      lookup throws `NoSuchElementException`. Never null, never a write. */
  function FindPriorityByName(rows: seq<Priority>, name: string, fault: bool): (r: Result<Priority>)
    ensures r.Ok? <==> PriorityRepository.FindPriorityByName(rows, name, fault).Some?
    ensures r.Ok? ==> PriorityRepository.FindPriorityByName(rows, name, fault) == Some(r.value)
    ensures r.Ok? ==> r.value in rows && r.value.name == name
    ensures r.Err? ==> r.error == NotFound
  {
    OrElseThrow(PriorityRepository.FindPriorityByName(rows, name, fault), NotFound)
  }
}
