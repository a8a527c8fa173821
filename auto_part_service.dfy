/**
 * The catalog service. Reading the catalog file and deserialising its JSON
 * are I/O and a library: their outcome is a parameter here. Every lookup
 * receives the freshly loaded list, so a lookup is a function of that list
 * alone; nothing is cached or mutated.
 */
module AutoPartService {
  import opened Wrappers
  import opened AutoParts

  /** The ways loading the catalog throws in the source, one per exception. */
  datatype LoadError =
    | Unreadable  // reading the catalog file fails (missing file, permission, I/O fault)
    | Malformed   // the JSON text does not deserialise into a list of parts
    | NullList    // the JSON text is `null`: the list is null and the lookup throws on it

  /** `i` is the index of the earliest part whose id is `id`. */
  ghost predicate IsFirstWithId(parts: seq<AutoPart>, id: int, i: int) {
    && 0 <= i < |parts|
    && parts[i].id == id
    && forall j :: 0 <= j < i ==> parts[j].id != id
  }

  /** No two parts of the list share an id. */
  ghost predicate UniqueIds(parts: seq<AutoPart>) {
    forall i, j :: 0 <= i < |parts| && 0 <= j < |parts| && parts[i].id == parts[j].id ==> i == j
  }

  /**
   * `FirstOrDefault(p => p.Id == id)` over the loaded list: the earliest part
   * with that id, or `None` (the source's `null`) when there is none.
   */
  function FirstById(parts: seq<AutoPart>, id: int): (r: Option<AutoPart>)
    ensures r.Some? ==> r.value in parts && r.value.id == id
    ensures r.None? <==> forall p :: p in parts ==> p.id != id
    ensures forall i :: IsFirstWithId(parts, id, i) ==> r == Some(parts[i])
  {
    if parts == [] then None
    else if parts[0].id == id then Some(parts[0])
    else
      assert forall i :: IsFirstWithId(parts, id, i) ==> IsFirstWithId(parts[1..], id, i - 1);
      FirstById(parts[1..], id)
  }

  /**
   * `GetAutoPartByIdAsync`: loads the catalog, then looks the id up. A load
   * failure propagates as a failure and is never reported as "not found".
   */
  function GetAutoPartById(loaded: Result<seq<AutoPart>, LoadError>, id: int): (r: Result<Option<AutoPart>, LoadError>)
    ensures loaded.Failure? <==> r.Failure?
    ensures loaded.Failure? ==> r.error == loaded.error
    ensures r.Success? && r.value.Some? ==> r.value.value in loaded.value && r.value.value.id == id
    ensures r.Success? && r.value.None? ==> forall p :: p in loaded.value ==> p.id != id
    ensures loaded.Success? && (exists p :: p in loaded.value && p.id == id) ==> r.Success? && r.value.Some?
  {
    match loaded
    case Failure(e) => Failure(e)
    case Success(parts) => Success(FirstById(parts, id))
  }

  /**
   * When several parts share the id, the earliest one wins: whenever the part
   * at index `i` has the id, the result is found among the first `i + 1` parts.
   * This is the earliest-match clause of `FirstById` stated for any matching
   * index, not only the first one, and proved by induction on the list.
   */
  lemma {:induction false} FirstByIdPrefersEarliest(parts: seq<AutoPart>, id: int, i: int)
    requires 0 <= i < |parts| && parts[i].id == id
    ensures FirstById(parts, id).Some? && FirstById(parts, id).value in parts[..i + 1]
  {
    if parts[0].id != id {
      var rest := parts[1..];
      FirstByIdPrefersEarliest(rest, id, i - 1);
      assert rest[..i] == parts[1..i + 1];
      assert parts[..i + 1] == [parts[0]] + parts[1..i + 1];
    }
  }

  /** In a catalog whose ids are unique, a part is found by its own id. */
  lemma FindsUniquePart(parts: seq<AutoPart>, k: int)
    requires UniqueIds(parts) && 0 <= k < |parts|
    ensures FirstById(parts, parts[k].id) == Some(parts[k])
  {
    assert IsFirstWithId(parts, parts[k].id, k);
  }
}
