/** `MirageRepositoryFactory`: decides which repository implementation to
    build for a repository declaration and binds it to the SQL resource named
    after the repository interface. */
module RepositoryFactory {
  import opened Wrappers
  import opened Collaborators
  import opened Repositories
  import opened Events

  /** The exceptions that escape the factory. */
  datatype Failure =
    | IllegalArgument                      // `Assert.notNull` on a null `SqlManager`
    | MetadataUnavailable(reason: string)  // thrown by the metadata resolver
    | ResourceFailure(reason: string)      // any loader exception other than "not found"

  const SqlSuffix: string := ".sql"

  /** The conventional resource name: the interface's simple name followed by
      `.sql`. */
  function ResourceName(simpleName: string): (name: string)
    ensures |name| == |simpleName| + |SqlSuffix|
    ensures name[..|simpleName|] == simpleName && name[|simpleName|..] == SqlSuffix
  {
    simpleName + SqlSuffix
  }

  /** An independent reading of the convention: `name` ends in `.sql` and what
      precedes the suffix is `simpleName`. */
  predicate IsConventionalName(simpleName: string, name: string) {
    |name| >= |SqlSuffix|
    && name[|name| - |SqlSuffix|..] == SqlSuffix
    && name[..|name| - |SqlSuffix|] == simpleName
  }

  /** `isLogicalDeleteJdbcRepository`: whether the interface is assignable to
      `LogicalDeleteMirageRepository`, i.e. extends it directly or transitively. */
  predicate IsLogicalDeleteJdbcRepository(repositoryInterface: RepositoryInterface): (b: bool)
    ensures b <==> repositoryInterface.extendsLogicalDelete
  {
    repositoryInterface.extendsLogicalDelete
  }

  /** `isIdentifiableJdbcRepository`: asks the resolved entity information's
      Java type, not the declared domain type. */
  predicate IsIdentifiableJdbcRepository(entityInformation: EntityInformation): (b: bool)
    ensures b <==> entityInformation.javaType.implementsIdentifiable
  {
    entityInformation.javaType.implementsIdentifiable
  }

  /** The three-way priority table of `getTargetRepository`. */
  function SelectVariant(logicalDelete: bool, identifiable: bool): (v: Variant)
    ensures v == LogicalDelete <==> logicalDelete
    ensures v == Identifiable <==> !logicalDelete && identifiable
    ensures v == Default <==> !logicalDelete && !identifiable
  {
    if logicalDelete then LogicalDelete
    else if identifiable then Identifiable
    else Default
  }

  /** What one call of `getTargetRepository` produces: the repository or the
      exception it throws, and the effects it had on the way. */
  datatype Build = Build(outcome: Result<RepositoryState, Failure>, trace: seq<Event>)

  /** The specification of `getTargetRepository` for a factory holding
      `sqlManager`, with the two foreign calls given as `resolve` and `load`. */
  function TargetRepository(
    sqlManager: SqlManager, metadata: RepositoryMetadata,
    resolve: MetadataResolver, load: ResourceLoader): (b: Build)
    ensures |b.trace| >= 1 && b.trace[0] == MetadataResolution(metadata.domainType, sqlManager)
    ensures b.outcome.Ok? ==>
      && b.outcome.value.sqlManager == sqlManager
      && WellTyped(b.outcome.value)
      && resolve(metadata.domainType, sqlManager) == Resolved(b.outcome.value.entityInformation)
  {
    var repositoryInterface := metadata.repositoryInterface;
    var resolution := MetadataResolution(metadata.domainType, sqlManager);
    match resolve(metadata.domainType, sqlManager)
    case Unavailable(reason) =>
      Build(Err(MetadataUnavailable(reason)), [resolution])
    case Resolved(info) =>
      var variant := SelectVariant(
        IsLogicalDeleteJdbcRepository(repositoryInterface), IsIdentifiableJdbcRepository(info));
      var name := ResourceName(repositoryInterface.simpleName);
      var prefix := [resolution, Instantiation(variant), ResourceLookup(repositoryInterface, name)];
      match load(repositoryInterface, name)
      case Found(resource) =>
        Build(Ok(RepositoryState(variant, info, sqlManager, Some(resource))), prefix)
      case NotFound =>
        Build(Ok(RepositoryState(variant, info, sqlManager, None)),
              prefix + [DebugLog(NotFoundMessage, repositoryInterface)])
      case OtherError(reason) =>
        Build(Err(ResourceFailure(reason)), prefix)
  }

  class MirageRepositoryFactory {
    const sqlManager: SqlManager
    /** Never given a value: the Java constructor assigns `null` unconditionally. */
    const extractor: Option<QueryExtractor> := None

    /** The Java constructor without its null guard: store the handle; the
        extractor stays unset. */
    constructor (sqlManager: SqlManager)
      ensures this.sqlManager == sqlManager && extractor == None
    {
      this.sqlManager := sqlManager;
    }

    /** The Java constructor including its `Assert.notNull` guard: a null
        `SqlManager` is an `IllegalArgumentException`. */
    static method Create(sqlManager: Option<SqlManager>) returns (r: Result<MirageRepositoryFactory, Failure>)
      ensures sqlManager.None? <==> r.Err?
      ensures r.Err? ==> r.error == IllegalArgument
      ensures r.Ok? ==> fresh(r.value) && r.value.sqlManager == sqlManager.value && r.value.extractor == None
    {
      if sqlManager.None? {
        return Err(IllegalArgument);
      }
      var factory := new MirageRepositoryFactory(sqlManager.value);
      r := Ok(factory);
    }

    /** `getEntityInformation`: resolves with the factory's own `SqlManager`. */
    function GetEntityInformation(domainClass: DomainType, resolve: MetadataResolver): (r: MetadataOutcome)
      ensures r == resolve(domainClass, sqlManager)
    {
      resolve(domainClass, sqlManager)
    }

    /** `getQueryLookupStrategy`: only the key comes from the caller. */
    function GetQueryLookupStrategy(key: Key): (s: QueryLookupStrategy)
      ensures s.sqlManager == sqlManager && s.key == key && s.extractor.None?
    {
      MirageQueryLookupStrategy(sqlManager, key, extractor)
    }

    /** `getRepositoryBaseClass`: the logical-delete class for logical-delete
        interfaces, the default class for every other. */
    function GetRepositoryBaseClass(metadata: RepositoryMetadata): (c: Variant)
      ensures c == LogicalDelete <==> metadata.repositoryInterface.extendsLogicalDelete
      ensures c != Identifiable
    {
      if IsLogicalDeleteJdbcRepository(metadata.repositoryInterface) then LogicalDelete else Default
    }

    /** `getTargetRepository`, step by step: resolve, pick and instantiate the
        variant, then try to bind the conventional SQL resource. The ghost
        `trace` records the effects. */
    method GetTargetRepository(metadata: RepositoryMetadata, resolve: MetadataResolver, load: ResourceLoader)
      returns (r: Result<MirageRepository, Failure>, ghost trace: seq<Event>)
      ensures var spec := TargetRepository(sqlManager, metadata, resolve, load);
        && trace == spec.trace
        && r.Ok? == spec.outcome.Ok?
        && (r.Err? ==> r.error == spec.outcome.error)
        && (r.Ok? ==> fresh(r.value) && r.value.State() == spec.outcome.value)
    {
      var repositoryInterface := metadata.repositoryInterface;
      trace := [MetadataResolution(metadata.domainType, sqlManager)];
      var resolved := GetEntityInformation(metadata.domainType, resolve);
      if resolved.Unavailable? {
        return Err(MetadataUnavailable(resolved.reason)), trace;
      }
      var entityInformation := resolved.info;

      var repos: MirageRepository;
      if IsLogicalDeleteJdbcRepository(repositoryInterface) {
        repos := new MirageRepository(LogicalDelete, entityInformation, sqlManager);
      } else if IsIdentifiableJdbcRepository(entityInformation) {
        repos := new MirageRepository(Identifiable, entityInformation, sqlManager);
      } else {
        repos := new MirageRepository(Default, entityInformation, sqlManager);
      }
      trace := trace + [Instantiation(repos.variant)];

      var name := repositoryInterface.simpleName + SqlSuffix;
      trace := trace + [ResourceLookup(repositoryInterface, name)];
      match load(repositoryInterface, name) {
        case Found(resource) =>
          repos.SetBaseSelectSqlResource(resource);
        case NotFound =>
          trace := trace + [DebugLog(NotFoundMessage, repositoryInterface)];
        case OtherError(reason) =>
          return Err(ResourceFailure(reason)), trace;
      }
      r := Ok(repos);
    }
  }
}
