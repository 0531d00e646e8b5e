/** The collaborators the repository factory talks to but whose code is not
    part of this model: the Mirage `SqlManager`, the entity-metadata resolver
    (`MirageEntityInformationSupport.getMetadata`), the SQL resource loader
    (`DefaultMirageRepository.newSqlResource`) and the query lookup strategy
    (`MirageQueryLookupStrategy.create`). Each is reduced to the data the
    factory reads or passes on. */
module Collaborators {
  import opened Wrappers

  /** A non-owning reference to the shared SQL executor; `id` stands for
      object identity. */
  datatype SqlManager = SqlManager(id: nat)

  /** The entity's Java type. `implementsIdentifiable` stands for
      `Identifiable.class.isAssignableFrom(type)`. */
  datatype DomainType = DomainType(name: string, implementsIdentifiable: bool)

  /** A user-declared repository interface. `extendsLogicalDelete` stands for
      `LogicalDeleteMirageRepository.class.isAssignableFrom(interface)`;
      `namespace` is the package that relative resource names resolve in. */
  datatype RepositoryInterface = RepositoryInterface(
    simpleName: string,
    namespace: string,
    extendsLogicalDelete: bool)

  /** What Spring Data hands the factory for one repository declaration. */
  datatype RepositoryMetadata = RepositoryMetadata(
    repositoryInterface: RepositoryInterface,
    domainType: DomainType)

  /** Entity information as produced by the metadata resolver: the Java type
      it describes and the name of its identifier type. */
  datatype EntityInformation = EntityInformation(javaType: DomainType, idType: string)

  /** Outcome of resolving entity information; `Unavailable` is the exception
      the resolver throws. */
  datatype MetadataOutcome = Resolved(info: EntityInformation) | Unavailable(reason: string)

  /** A located SQL resource, opaque to the factory. */
  datatype SqlResource = SqlResource(location: string)

  /** Outcome of loading a SQL resource: found, `NoSuchSqlResourceException`,
      or any other exception. */
  datatype LookupOutcome = Found(resource: SqlResource) | NotFound | OtherError(reason: string)

  /** `MirageEntityInformationSupport.getMetadata(domainClass, sqlManager)`. */
  type MetadataResolver = (DomainType, SqlManager) -> MetadataOutcome

  /** `DefaultMirageRepository.newSqlResource(repositoryInterface, name)`. */
  type ResourceLoader = (RepositoryInterface, string) -> LookupOutcome

  /** Spring Data's `QueryLookupStrategy.Key`. */
  datatype Key = Create | UseDeclaredQuery | CreateIfNotFound

  /** The query-string extraction collaborator, opaque here. */
  datatype QueryExtractor = QueryExtractor(id: nat)

  /** The strategy `MirageQueryLookupStrategy.create` builds, reduced to the
      three arguments it is built from. */
  datatype QueryLookupStrategy = MirageQueryLookupStrategy(
    sqlManager: SqlManager,
    key: Key,
    extractor: Option<QueryExtractor>)
}
