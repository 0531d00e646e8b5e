# Mirage repository factory, modelled in Dafny

This project models `MirageRepositoryFactory`, the Spring Data factory of
spring-data-mirage. For each repository declaration, the factory decides which
repository implementation to instantiate:

- `DefaultLogicalDeleteMirageRepository` when the interface extends
  `LogicalDeleteMirageRepository`;
- otherwise `IdentifiableMirageRepository` when the entity's Java type
  implements `Identifiable`;
- otherwise `DefaultMirageRepository`.

It then binds the new repository to the SQL resource named
`<InterfaceSimpleName>.sql`. It tolerates the resource being missing and lets
every other loading failure escape. The factory also declares the repository
base class and passes its `SqlManager` to the entity-metadata resolver and to
the query lookup strategy.

Modules:

- `Wrappers` (wrappers.dfy): `Option` (Java's nullable reference) and `Result` (a value or the exception thrown).
- `Collaborators` (collaborators.dfy): the foreign collaborators reduced to data.
  - The `SqlManager` handle, the domain type, the repository interface and the entity information.
  - The metadata resolver and the resource loader, as function-typed parameters.
  - The query lookup key and the strategy record.
- `Repositories` (repositories.dfy): the three implementation classes as the tag `Variant`. `MirageRepository` is a class whose variant, entity information and SQL manager are fixed at construction. Its `baseSelectSqlResource` is set afterwards.
- `Events` (events.dfy): the observable effects of one build, as a trace. The effects are metadata resolution, instantiation, resource lookup and the debug log entry. `Count` counts events of one kind.
- `RepositoryFactory` (factory.dfy) holds the decision logic:
  - the naming convention, the two capability predicates and the priority table;
  - `TargetRepository`, the specification of `getTargetRepository` as a function;
  - the class `MirageRepositoryFactory`, whose `GetTargetRepository` method builds the repository step by step and is proved equal to `TargetRepository`.
- `FactoryProperties` (properties.dfy): the lemmas stating what a build promises.

## Model

| member | source | states |
|---|---|---|
| RepositoryFactory.MirageRepositoryFactory.constructor | src/main/java/org/springframework/data/mirage/repository/support/MirageRepositoryFactory.java:62-66 | the factory stores exactly the given `SqlManager`; the extractor is unset |
| RepositoryFactory.MirageRepositoryFactory.Create | src/main/java/org/springframework/data/mirage/repository/support/MirageRepositoryFactory.java:56-66 | a null `SqlManager` fails with `IllegalArgument` and nothing else does; a success is a fresh factory holding the given handle with no extractor |
| RepositoryFactory.MirageRepositoryFactory.GetQueryLookupStrategy | src/main/java/org/springframework/data/mirage/repository/support/MirageRepositoryFactory.java:74-77 | the strategy receives the factory's own `SqlManager`, the caller's key and no extractor |
| FactoryProperties.QueryLookupOnlyKeyVaries | src/main/java/org/springframework/data/mirage/repository/support/MirageRepositoryFactory.java:75-77 | two strategies from the same factory differ in nothing but the key |
| RepositoryFactory.MirageRepositoryFactory.GetRepositoryBaseClass | src/main/java/org/springframework/data/mirage/repository/support/MirageRepositoryFactory.java:79-86 | the base class is the logical-delete class exactly when the interface is logical-delete capable; it is never the Identifiable class |
| FactoryProperties.BaseClassAgreesWithTarget | src/main/java/org/springframework/data/mirage/repository/support/MirageRepositoryFactory.java:80-106 | the target variant is a subclass of the declared base class, and both agree on logical delete |
| RepositoryFactory.SelectVariant | src/main/java/org/springframework/data/mirage/repository/support/MirageRepositoryFactory.java:98-106 | strict priority: logical delete iff the interface supports it; Identifiable iff not logical delete and the entity is Identifiable; Default iff neither |
| FactoryProperties.VariantPriority | src/main/java/org/springframework/data/mirage/repository/support/MirageRepositoryFactory.java:98-106 | a resolved build instantiates exactly one repository, whose variant follows the priority table, and the returned repository has that variant |
| FactoryProperties.VariantDependsOnlyOnCapabilities | src/main/java/org/springframework/data/mirage/repository/support/MirageRepositoryFactory.java:116-128 | the chosen variant depends only on the two capability flags, not on names, SQL manager or resources |
| RepositoryFactory.TargetRepository | src/main/java/org/springframework/data/mirage/repository/support/MirageRepositoryFactory.java:93-114 | the first effect is metadata resolution with the factory's own `SqlManager`; a returned repository holds that manager and the resolved entity information; an Identifiable repository only ever wraps an Identifiable type, so the unchecked cast is sound |
| RepositoryFactory.MirageRepositoryFactory.GetTargetRepository | src/main/java/org/springframework/data/mirage/repository/support/MirageRepositoryFactory.java:93-114 | the imperative build returns, throws and records exactly what `TargetRepository` specifies; a returned repository is fresh |
| FactoryProperties.BuildSucceedsIff | src/main/java/org/springframework/data/mirage/repository/support/MirageRepositoryFactory.java:93-114 | a build returns a repository iff the metadata resolves and the loader does not fail with something other than "not found" |
| RepositoryFactory.MirageRepositoryFactory.GetEntityInformation | src/main/java/org/springframework/data/mirage/repository/support/MirageRepositoryFactory.java:70-72 | entity information is resolved from the domain class with the factory's own `SqlManager` |
| RepositoryFactory.IsLogicalDeleteJdbcRepository | src/main/java/org/springframework/data/mirage/repository/support/MirageRepositoryFactory.java:126-128 | true iff the interface's `extendsLogicalDelete` flag is set; the flag stands for `LogicalDeleteMirageRepository.class.isAssignableFrom(interface)` |
| RepositoryFactory.IsIdentifiableJdbcRepository | src/main/java/org/springframework/data/mirage/repository/support/MirageRepositoryFactory.java:116-118 | true iff the resolved Java type's `implementsIdentifiable` flag is set; the flag stands for `Identifiable.class.isAssignableFrom(entityInformation.getJavaType())` |
| FactoryProperties.MetadataFailureAborts | src/main/java/org/springframework/data/mirage/repository/support/MirageRepositoryFactory.java:93-97 | a resolver failure escapes unchanged; only the resolution happened: no instantiation, no lookup |
| FactoryProperties.CountsOfResolvedBuild | src/main/java/org/springframework/data/mirage/repository/support/MirageRepositoryFactory.java:95-113 | a resolved build resolves once, instantiates once and looks up once; it logs once iff the resource is missing |
| RepositoryFactory.ResourceName | src/main/java/org/springframework/data/mirage/repository/support/MirageRepositoryFactory.java:108 | the resource name is the simple name followed by `.sql` |
| FactoryProperties.ConventionalNameCharacterization | src/main/java/org/springframework/data/mirage/repository/support/MirageRepositoryFactory.java:108 | a name ends in `.sql` preceded by the simple name iff it is the conventional resource name |
| FactoryProperties.ResourceNameInjective | src/main/java/org/springframework/data/mirage/repository/support/MirageRepositoryFactory.java:108 | different simple names never map to the same resource name |
| FactoryProperties.ResourceLookedUpOnce | src/main/java/org/springframework/data/mirage/repository/support/MirageRepositoryFactory.java:107-109 | exactly one lookup, relative to the repository interface, under the conventional name, after instantiation |
| FactoryProperties.FoundResourceIsBound | src/main/java/org/springframework/data/mirage/repository/support/MirageRepositoryFactory.java:108-109 | a found resource becomes the base select SQL resource and nothing is logged |
| Repositories.MirageRepository.SetBaseSelectSqlResource | src/main/java/org/springframework/data/mirage/repository/support/MirageRepositoryFactory.java:109 | the setter attaches the resource and changes nothing else |
| Repositories.MirageRepository.constructor | src/main/java/org/springframework/data/mirage/repository/support/MirageRepositoryFactory.java:99-105 | a new repository has the chosen variant, entity information and SQL manager, and no base resource |
| FactoryProperties.MissingResourceIsRecovered | src/main/java/org/springframework/data/mirage/repository/support/MirageRepositoryFactory.java:110-113 | a missing resource still yields the repository, with the same variant and no base resource attached (the variant keeps its own default), and logs exactly one debug entry naming the interface |
| FactoryProperties.OtherLookupFailurePropagates | src/main/java/org/springframework/data/mirage/repository/support/MirageRepositoryFactory.java:107-112 | any other loader failure escapes unchanged and logs nothing |

## Left out

- Spring Data's `RepositoryFactorySupport` machinery, generics and unchecked casts: they have no behaviour of their own here.
- Reflection: `isAssignableFrom` is replaced by the flags `extendsLogicalDelete` on the interface and `implementsIdentifiable` on the entity's Java type. How those flags follow from the type hierarchy is not modelled.
- `getSimpleName` is replaced by the `simpleName` field of the interface.
- `MirageEntityInformationSupport.getMetadata` and `DefaultMirageRepository.newSqlResource` are function parameters of the build. Their own code is not part of this model. Their exceptions are the `Unavailable` and `NotFound`/`OtherError` outcomes.
- `MirageQueryLookupStrategy.create` is reduced to the record of its three arguments. The strategy's behaviour is not part of this model.
- `SqlManager` and `QueryExtractor` are opaque handles.
- Resource I/O and class-path loading are represented only by the loader parameter.
- SLF4J logging is an event in the trace carrying the message template and the interface. Message formatting and log levels are not modelled.
- The three repository classes are one class with a variant tag. Their CRUD and query behaviour is not part of this model.
- The repository constructors are not shown in the source. In the model, a new repository has no base select SQL resource until the factory sets one. `None` there stands for "the default the variant keeps", which the missing-resource log message calls "default used"; it does not mean the repository has no select SQL at all. That default is not modelled.
- The doc comment on the logical-delete check mentions QueryDsl. It describes no behaviour and is ignored.
