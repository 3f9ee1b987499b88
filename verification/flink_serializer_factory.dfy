/** `FlinkHeaderTBaseSerializerFactory`: a serializer factory scoped to the
    Thrift types a Flink locator supports. It owns a value when the value is a
    `TBase` and its runtime class is one the locator supports, and it hands
    out serializers from a `HeaderTBaseSerializerFactory` built over that same
    locator.

    The locator is abstract: the set of `TBase` classes it supports. What a
    `HeaderTBaseSerializer` does with it is not part of this model.
 */
module FlinkSerializerFactory {
  import opened JavaTypes

  /** A runtime class, as far as the factory can tell: its name and whether
      it implements `org.apache.thrift.TBase`. */
  datatype JavaClass = JavaClass(name: string, isTBase: bool)

  /** The argument of `isSupport(Object)`: null or an instance of a class. */
  datatype Target = Null | Instance(cls: JavaClass)

  /** `TypeLocator<TBase<?, ?>>`: the classes it answers `isSupport` for. */
  datatype TypeLocator = TypeLocator(supported: set<JavaClass>)

  /** The `HeaderTBaseSerializerFactory` the Flink factory delegates to. */
  datatype HeaderFactory = HeaderFactory(locator: TypeLocator)

  /** A `HeaderTBaseSerializer`, identified by the locator it encodes with. */
  datatype HeaderSerializer = HeaderSerializer(locator: TypeLocator)

  /** An instance of the factory: its locator and its delegate. */
  datatype Factory = Factory(tBaseLocator: TypeLocator, delegate: HeaderFactory)

  /** What the constructor does: build a factory or throw. */
  datatype Construction = Constructed(factory: Factory) | NullPointerException(message: string)

  /** The delegate and the ownership test share one locator. */
  predicate Valid(f: Factory) {
    f.delegate.locator == f.tBaseLocator
  }

  /** The constructor: a null locator throws NullPointerException; otherwise
      both the ownership test and the delegate use the given locator. */
  function New(locator: Option<TypeLocator>): (r: Construction)
    ensures locator.None? <==> r.NullPointerException?
    ensures locator.Some? ==> r.factory.tBaseLocator == locator.value && Valid(r.factory)
  {
    match locator
    case None => NullPointerException("flinkTBaseLocator must not be null.")
    case Some(l) => Constructed(Factory(l, HeaderFactory(l)))
  }

  /** `HeaderTBaseSerializerFactory.createSerializer()`. */
  function HeaderCreateSerializer(h: HeaderFactory): HeaderSerializer {
    HeaderSerializer(h.locator)
  }

  /** `createSerializer()`: delegates, so the serializer encodes with the very
      locator `isSupport` consults. */
  function CreateSerializer(f: Factory): (r: HeaderSerializer)
    ensures r == HeaderCreateSerializer(f.delegate)
    ensures Valid(f) ==> r.locator == f.tBaseLocator
  {
    HeaderCreateSerializer(f.delegate)
  }

  /** `isSupport(Object)`: `instanceof TBase`, then the locator's verdict on
      the runtime class; null is not an instance of anything. */
  function IsSupport(f: Factory, target: Target): (r: bool)
    ensures !(target.Instance? && target.cls.isTBase) ==> !r
    ensures target.Instance? && target.cls.isTBase ==> (r <==> target.cls in f.tBaseLocator.supported)
  {
    match target
    case Null => false
    case Instance(cls) => if cls.isTBase then cls in f.tBaseLocator.supported else false
  }

  /** The classes of the accepted targets are classes the locator supports,
      and they are all `TBase` classes. */
  lemma AcceptedClassesAreSupported(f: Factory, targets: set<Target>)
    ensures (set t | t in targets && IsSupport(f, t) :: t.cls) <= f.tBaseLocator.supported
    ensures forall t | t in targets && IsSupport(f, t) :: t.cls.isTBase
  {
  }

  /** The answer depends only on the target's runtime class. */
  lemma IsSupportDependsOnlyOnClass(f: Factory, a: Target, b: Target)
    requires a.Instance? && b.Instance? && a.cls == b.cls
    ensures IsSupport(f, a) == IsSupport(f, b)
  {
  }

  /** Scoping: a factory over a smaller locator accepts exactly what one over
      a larger locator accepts, restricted to the classes the smaller locator
      lists. */
  lemma ScopedLocatorRestricts(narrow: Factory, wide: Factory, target: Target)
    requires narrow.tBaseLocator.supported <= wide.tBaseLocator.supported
    ensures IsSupport(narrow, target) ==> IsSupport(wide, target)
    ensures IsSupport(narrow, target) <==>
      IsSupport(wide, target) && target.Instance? && target.cls in narrow.tBaseLocator.supported
  {
  }
}
