/** The externally observable effects of building one repository, in the
    order they happen: the metadata resolution, the instantiation of a
    variant, the resource lookup and the debug log entry on a miss. */
module Events {
  import opened Collaborators
  import opened Repositories

  /** The SLF4J debug message logged when the conventional resource is
      missing; `{}` is filled with the repository interface. */
  const NotFoundMessage: string := "Repository Default SQL [{}] not found, default used."

  datatype Event =
    | MetadataResolution(domainType: DomainType, sqlManager: SqlManager)
    | Instantiation(variant: Variant)
    | ResourceLookup(repositoryInterface: RepositoryInterface, name: string)
    | DebugLog(message: string, argument: RepositoryInterface)
  {
    function Kind(): (k: EventKind) {
      match this
      case MetadataResolution(_, _) => ResolutionKind
      case Instantiation(_) => InstantiationKind
      case ResourceLookup(_, _) => LookupKind
      case DebugLog(_, _) => DebugKind
    }
  }

  datatype EventKind = ResolutionKind | InstantiationKind | LookupKind | DebugKind

  /** The number of events of one kind in a trace. */
  function Count(trace: seq<Event>, kind: EventKind): (n: nat)
    ensures n <= |trace|
    ensures n == 0 <==> forall i :: 0 <= i < |trace| ==> trace[i].Kind() != kind
  {
    if trace == [] then 0
    else (if trace[0].Kind() == kind then 1 else 0) + Count(trace[1..], kind)
  }

  /** Counting distributes over concatenation of traces. */
  lemma {:induction false} CountAppend(a: seq<Event>, b: seq<Event>, kind: EventKind)
    ensures Count(a + b, kind) == Count(a, kind) + Count(b, kind)
  {
    if a != [] {
      assert (a + b)[1..] == a[1..] + b;
      CountAppend(a[1..], b, kind);
    } else {
      assert a + b == b;
    }
  }

  /** A single event counts once for its own kind and never for another. */
  lemma CountSingle(e: Event, kind: EventKind)
    ensures Count([e], kind) == if e.Kind() == kind then 1 else 0
  {
  }
}
