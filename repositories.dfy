/** The repository implementations the factory can instantiate. */
module Repositories {
  import opened Wrappers
  import opened Collaborators

  /** The implementation classes: `DefaultLogicalDeleteMirageRepository`,
      `IdentifiableMirageRepository` and `DefaultMirageRepository`. */
  datatype Variant = LogicalDelete | Identifiable | Default

  /** Java subclassing among the variants: both specialised variants extend
      `DefaultMirageRepository`, and every class extends itself. */
  predicate Extends(sub: Variant, sup: Variant) {
    sub == sup || sup == Default
  }

  /** The observable configuration of a built repository. */
  datatype RepositoryState = RepositoryState(
    variant: Variant,
    entityInformation: EntityInformation,
    sqlManager: SqlManager,
    baseSelectSqlResource: Option<SqlResource>)

  /** The unchecked cast to `EntityInformation<Identifiable, ?>` is sound only
      when the entity's Java type really is `Identifiable`. */
  predicate WellTyped(s: RepositoryState) {
    s.variant == Identifiable ==> s.entityInformation.javaType.implementsIdentifiable
  }

  /** A constructed repository. Its variant, entity information and SQL
      manager are fixed at construction; the base select SQL resource is
      set afterwards. `None` means the factory attached no resource, so the
      repository uses whatever default select SQL its variant keeps; it does
      not mean the repository has no select SQL at all. */
  class MirageRepository {
    const variant: Variant
    const entityInformation: EntityInformation
    const sqlManager: SqlManager
    var baseSelectSqlResource: Option<SqlResource>

    function State(): (s: RepositoryState)
      reads this
    {
      RepositoryState(variant, entityInformation, sqlManager, baseSelectSqlResource)
    }

    constructor (variant: Variant, entityInformation: EntityInformation, sqlManager: SqlManager)
      ensures State() == RepositoryState(variant, entityInformation, sqlManager, None)
    {
      this.variant := variant;
      this.entityInformation := entityInformation;
      this.sqlManager := sqlManager;
      this.baseSelectSqlResource := None;
    }

    /** `setBaseSelectSqlResource`: attaches the resource; nothing else changes. */
    method SetBaseSelectSqlResource(resource: SqlResource)
      modifies this`baseSelectSqlResource
      ensures State() == old(State()).(baseSelectSqlResource := Some(resource))
    {
      baseSelectSqlResource := Some(resource);
    }
  }
}
