/** What `getTargetRepository`, `getRepositoryBaseClass` and the query lookup
    hookup promise, stated over the specification functions. */
module FactoryProperties {
  import opened Wrappers
  import opened Collaborators
  import opened Repositories
  import opened Events
  import opened RepositoryFactory

  /** The trace of a build whose metadata resolved, taken apart event by event. */
  lemma CountsOfResolvedBuild(
    sqlManager: SqlManager, metadata: RepositoryMetadata,
    resolve: MetadataResolver, load: ResourceLoader, info: EntityInformation)
    requires resolve(metadata.domainType, sqlManager) == Resolved(info)
    ensures var b := TargetRepository(sqlManager, metadata, resolve, load);
      var logged := load(metadata.repositoryInterface, ResourceName(metadata.repositoryInterface.simpleName)).NotFound?;
      && Count(b.trace, ResolutionKind) == 1
      && Count(b.trace, InstantiationKind) == 1
      && Count(b.trace, LookupKind) == 1
      && Count(b.trace, DebugKind) == (if logged then 1 else 0)
  {
    var b := TargetRepository(sqlManager, metadata, resolve, load);
    var t := b.trace;
    forall kind: EventKind
      ensures Count(t[..3], kind) == (if kind == DebugKind then 0 else 1)
    {
      assert t[..3] == [t[0]] + [t[1]] + [t[2]];
      CountAppend([t[0]] + [t[1]], [t[2]], kind);
      CountAppend([t[0]], [t[1]], kind);
      CountSingle(t[0], kind);
      CountSingle(t[1], kind);
      CountSingle(t[2], kind);
    }
    if |t| == 4 {
      assert t == t[..3] + [t[3]];
      forall kind: EventKind
        ensures Count(t, kind) == Count(t[..3], kind) + (if kind == DebugKind then 1 else 0)
      {
        CountAppend(t[..3], [t[3]], kind);
        CountSingle(t[3], kind);
      }
    } else {
      assert t == t[..3];
    }
  }

  /** Logical delete wins over Identifiable; Identifiable wins over the
      default; exactly one variant is instantiated, before the resource is
      looked up. */
  lemma VariantPriority(
    sqlManager: SqlManager, metadata: RepositoryMetadata,
    resolve: MetadataResolver, load: ResourceLoader, info: EntityInformation)
    requires resolve(metadata.domainType, sqlManager) == Resolved(info)
    ensures var b := TargetRepository(sqlManager, metadata, resolve, load);
      var ld := metadata.repositoryInterface.extendsLogicalDelete;
      var id := info.javaType.implementsIdentifiable;
      && Count(b.trace, InstantiationKind) == 1
      && b.trace[1].Instantiation?
      && (b.trace[1].variant == LogicalDelete <==> ld)
      && (b.trace[1].variant == Identifiable <==> !ld && id)
      && (b.trace[1].variant == Default <==> !ld && !id)
      && (b.outcome.Ok? ==> b.outcome.value.variant == b.trace[1].variant)
  {
  }

  /** The declared base class never is the Identifiable class, the target
      variant always is a subclass of it, and the two agree on whether the
      repository supports logical delete. */
  lemma BaseClassAgreesWithTarget(
    factory: MirageRepositoryFactory, metadata: RepositoryMetadata, info: EntityInformation)
    ensures var base := factory.GetRepositoryBaseClass(metadata);
      var target := SelectVariant(
        IsLogicalDeleteJdbcRepository(metadata.repositoryInterface), IsIdentifiableJdbcRepository(info));
      && base != Identifiable
      && Extends(target, base)
      && (target == LogicalDelete <==> base == LogicalDelete)
  {
  }

  /** The variant depends on nothing but the two capability flags: not on the
      interface's name or namespace, the entity's identity, the SQL manager or
      the resources on the class path. */
  lemma VariantDependsOnlyOnCapabilities(
    sqlManager1: SqlManager, metadata1: RepositoryMetadata, resolve1: MetadataResolver, load1: ResourceLoader,
    sqlManager2: SqlManager, metadata2: RepositoryMetadata, resolve2: MetadataResolver, load2: ResourceLoader,
    info1: EntityInformation, info2: EntityInformation)
    requires resolve1(metadata1.domainType, sqlManager1) == Resolved(info1)
    requires resolve2(metadata2.domainType, sqlManager2) == Resolved(info2)
    requires metadata1.repositoryInterface.extendsLogicalDelete == metadata2.repositoryInterface.extendsLogicalDelete
    requires info1.javaType.implementsIdentifiable == info2.javaType.implementsIdentifiable
    ensures TargetRepository(sqlManager1, metadata1, resolve1, load1).trace[1]
         == TargetRepository(sqlManager2, metadata2, resolve2, load2).trace[1]
  {
  }

  /** The resource is looked up exactly once, under the conventional name,
      relative to the repository interface, after the variant is chosen. */
  lemma ResourceLookedUpOnce(
    sqlManager: SqlManager, metadata: RepositoryMetadata,
    resolve: MetadataResolver, load: ResourceLoader, info: EntityInformation)
    requires resolve(metadata.domainType, sqlManager) == Resolved(info)
    ensures var b := TargetRepository(sqlManager, metadata, resolve, load);
      && Count(b.trace, LookupKind) == 1
      && b.trace[1].Instantiation?
      && b.trace[2].ResourceLookup?
      && b.trace[2].repositoryInterface == metadata.repositoryInterface
      && IsConventionalName(metadata.repositoryInterface.simpleName, b.trace[2].name)
  {
    var b := TargetRepository(sqlManager, metadata, resolve, load);
    CountsOfResolvedBuild(sqlManager, metadata, resolve, load, info);
    ConventionalNameCharacterization(metadata.repositoryInterface.simpleName, b.trace[2].name);
  }

  /** A found resource becomes the repository's base select SQL resource and
      nothing is logged. */
  lemma FoundResourceIsBound(
    sqlManager: SqlManager, metadata: RepositoryMetadata,
    resolve: MetadataResolver, load: ResourceLoader, info: EntityInformation, resource: SqlResource)
    requires resolve(metadata.domainType, sqlManager) == Resolved(info)
    requires load(metadata.repositoryInterface, ResourceName(metadata.repositoryInterface.simpleName)) == Found(resource)
    ensures var b := TargetRepository(sqlManager, metadata, resolve, load);
      && b.outcome.Ok?
      && b.outcome.value == RepositoryState(b.trace[1].variant, info, sqlManager, Some(resource))
      && Count(b.trace, DebugKind) == 0
  {
  }

  /** A missing resource is recovered: the repository is still returned, with
      the same variant and no base resource, and exactly one debug entry
      naming the interface is logged, last. */
  lemma MissingResourceIsRecovered(
    sqlManager: SqlManager, metadata: RepositoryMetadata,
    resolve: MetadataResolver, load: ResourceLoader, info: EntityInformation)
    requires resolve(metadata.domainType, sqlManager) == Resolved(info)
    requires load(metadata.repositoryInterface, ResourceName(metadata.repositoryInterface.simpleName)).NotFound?
    ensures var b := TargetRepository(sqlManager, metadata, resolve, load);
      && b.outcome.Ok?
      && b.outcome.value == RepositoryState(b.trace[1].variant, info, sqlManager, None)
      && Count(b.trace, DebugKind) == 1
      && b.trace[|b.trace| - 1] == DebugLog(NotFoundMessage, metadata.repositoryInterface)
  {
    CountsOfResolvedBuild(sqlManager, metadata, resolve, load, info);
  }

  /** Every other loader failure escapes unchanged and nothing is logged. */
  lemma OtherLookupFailurePropagates(
    sqlManager: SqlManager, metadata: RepositoryMetadata,
    resolve: MetadataResolver, load: ResourceLoader, info: EntityInformation, reason: string)
    requires resolve(metadata.domainType, sqlManager) == Resolved(info)
    requires load(metadata.repositoryInterface, ResourceName(metadata.repositoryInterface.simpleName)) == OtherError(reason)
    ensures var b := TargetRepository(sqlManager, metadata, resolve, load);
      && b.outcome == Err(ResourceFailure(reason))
      && Count(b.trace, DebugKind) == 0
  {
  }

  /** A build succeeds exactly when the metadata resolves and the loader does
      not fail with anything but "not found". */
  lemma BuildSucceedsIff(
    sqlManager: SqlManager, metadata: RepositoryMetadata,
    resolve: MetadataResolver, load: ResourceLoader)
    ensures TargetRepository(sqlManager, metadata, resolve, load).outcome.Ok?
        <==> && resolve(metadata.domainType, sqlManager).Resolved?
             && !load(metadata.repositoryInterface, ResourceName(metadata.repositoryInterface.simpleName)).OtherError?
  {
  }

  /** A metadata failure aborts the build before anything is instantiated or
      looked up; the resolver is asked with the factory's own SQL manager. */
  lemma MetadataFailureAborts(
    sqlManager: SqlManager, metadata: RepositoryMetadata,
    resolve: MetadataResolver, load: ResourceLoader, reason: string)
    requires resolve(metadata.domainType, sqlManager) == Unavailable(reason)
    ensures var b := TargetRepository(sqlManager, metadata, resolve, load);
      && b.outcome == Err(MetadataUnavailable(reason))
      && b.trace == [MetadataResolution(metadata.domainType, sqlManager)]
      && Count(b.trace, InstantiationKind) == 0
      && Count(b.trace, LookupKind) == 0
  {
  }

  /** The conventional name and its independent reading agree, both ways. */
  lemma ConventionalNameCharacterization(simpleName: string, name: string)
    ensures IsConventionalName(simpleName, name) <==> name == ResourceName(simpleName)
  {
  }

  /** Interfaces with different simple names never share a resource name. */
  lemma ResourceNameInjective(simpleName1: string, simpleName2: string)
    ensures ResourceName(simpleName1) == ResourceName(simpleName2) ==> simpleName1 == simpleName2
  {
  }

  /** Two query lookup strategies from one factory differ at most in the key. */
  lemma QueryLookupOnlyKeyVaries(factory: MirageRepositoryFactory, key1: Key, key2: Key)
    ensures factory.GetQueryLookupStrategy(key1) == factory.GetQueryLookupStrategy(key2).(key := key1)
  {
  }
}
