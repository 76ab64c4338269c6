/** NUnit test-fixture lifecycle as the member-disposal rule sees it: a member
    assigned in a `[SetUp]` method counts as disposed when the `[TearDown]`
    method disposes it, and one assigned in a `[OneTimeSetUp]` method when the
    `[OneTimeTearDown]` method does. */
module TestFixture {
  import opened Optional
  import Seqs

  /** The resolved type of an attribute; only the four NUnit lifecycle
      attributes matter here. */
  datatype AttributeType =
    | SetUp
    | TearDown
    | OneTimeSetUp
    | OneTimeTearDown
    | OtherAttribute(name: string)

  /** A method declaration with the resolved types of its attributes, in
      source order. Finding an attribute of a given type is membership. */
  datatype Method = Method(name: string, attributes: seq<AttributeType>)

  datatype MemberDecl = MethodMember(declaration: Method) | OtherMember(name: string)

  /** A type declaration's members in declaration order. */
  datatype TypeDecl = TypeDecl(members: seq<MemberDecl>)

  /** Where the single assignment to the member sits, as the assignment lookup
      and the enclosing-method lookup report it. */
  datatype AssignmentSite =
    | NoSingleAssignment   // zero or several assignments
    | OutsideMethod        // the one assignment is not inside a method declaration
    | InMethod(declaration: Method)

  /** An attribute node: its resolved type (absent when it does not resolve)
      and the type declaration around it (absent when there is none). */
  datatype AttributeNode = AttributeNode(resolvedType: Option<AttributeType>, enclosingType: Option<TypeDecl>)

  predicate HasAttribute(m: Method, a: AttributeType)
  {
    a in m.attributes
  }

  /** A member is a method carrying attribute `a`. */
  predicate IsMethodWith(member: MemberDecl, a: AttributeType)
  {
    member.MethodMember? && HasAttribute(member.declaration, a)
  }

  /** The first member, in search order, that is a method carrying `a`. */
  function FirstMethodWith(members: seq<MemberDecl>, a: AttributeType): (r: Option<nat>)
    ensures r.Some? ==> Seqs.IsFirst(members, m => IsMethodWith(m, a), r.value)
    ensures r.Some? ==> r.value < |members| && IsMethodWith(members[r.value], a)
    ensures r.None? <==> forall i :: 0 <= i < |members| ==> !IsMethodWith(members[i], a)
  {
    Seqs.FirstIndex(members, m => IsMethodWith(m, a))
  }

  /** The teardown attribute paired with a setup attribute's resolved type:
      SetUp pairs with TearDown, and anything else with OneTimeTearDown. */
  function TearDownAttributeFor(setUp: Option<AttributeType>): (r: AttributeType)
    ensures r == TearDown || r == OneTimeTearDown
    ensures r == TearDown <==> setUp == Some(SetUp)
  {
    if setUp == Some(SetUp) then TearDown else OneTimeTearDown
  }

  /** Whether the member is assigned in a setup method and disposed in the
      paired teardown method. `hierarchy` lists the members of the containing
      type and then of its base types, in the order the recursive method
      search visits them; `isDisposedIn` is the member-disposal query for one
      teardown method. */
  function IsAssignedAndDisposedInSetupAndTearDown(
    site: AssignmentSite, hierarchy: seq<MemberDecl>, isDisposedIn: Method -> bool): (r: bool)
    ensures r ==> site.InMethod?
    ensures r ==> HasAttribute(site.declaration, SetUp) || HasAttribute(site.declaration, OneTimeSetUp)
  {
    match site
    case InMethod(m) =>
      if HasAttribute(m, SetUp) && FirstMethodWith(hierarchy, TearDown).Some? then
        isDisposedIn(hierarchy[FirstMethodWith(hierarchy, TearDown).value].declaration)
      else if HasAttribute(m, OneTimeSetUp) && FirstMethodWith(hierarchy, OneTimeTearDown).Some? then
        isDisposedIn(hierarchy[FirstMethodWith(hierarchy, OneTimeTearDown).value].declaration)
      else
        false
    case _ => false
  }

  /** A member assigned in a `[SetUp]` method is judged by the first
      `[TearDown]` method, whatever any `[OneTimeTearDown]` method does. */
  lemma SetUpJudgedByFirstTearDown(site: AssignmentSite, hierarchy: seq<MemberDecl>, isDisposedIn: Method -> bool, i: nat)
    requires site.InMethod? && HasAttribute(site.declaration, SetUp)
    requires Seqs.IsFirst(hierarchy, m => IsMethodWith(m, TearDown), i)
    ensures IsAssignedAndDisposedInSetupAndTearDown(site, hierarchy, isDisposedIn) == isDisposedIn(hierarchy[i].declaration)
  {
  }

  /** A member assigned only in a `[SetUp]` method is never judged by a
      `[OneTimeTearDown]` method: a positive answer always comes from a
      `[TearDown]` method that disposes it. */
  lemma SetUpNeverUsesOneTimeTearDown(site: AssignmentSite, hierarchy: seq<MemberDecl>, isDisposedIn: Method -> bool)
    requires site.InMethod? && HasAttribute(site.declaration, SetUp) && !HasAttribute(site.declaration, OneTimeSetUp)
    requires IsAssignedAndDisposedInSetupAndTearDown(site, hierarchy, isDisposedIn)
    ensures exists i :: 0 <= i < |hierarchy| && IsMethodWith(hierarchy[i], TearDown) && isDisposedIn(hierarchy[i].declaration)
  {
  }

  /** A `[SetUp]` method without any `[TearDown]` falls through to the
      OneTimeSetUp check: a method carrying both is then judged by the first
      `[OneTimeTearDown]` method. */
  lemma SetUpFallsThroughToOneTimeSetUp(site: AssignmentSite, hierarchy: seq<MemberDecl>, isDisposedIn: Method -> bool, i: nat)
    requires site.InMethod? && HasAttribute(site.declaration, SetUp) && HasAttribute(site.declaration, OneTimeSetUp)
    requires forall j :: 0 <= j < |hierarchy| ==> !IsMethodWith(hierarchy[j], TearDown)
    requires Seqs.IsFirst(hierarchy, m => IsMethodWith(m, OneTimeTearDown), i)
    ensures IsAssignedAndDisposedInSetupAndTearDown(site, hierarchy, isDisposedIn) == isDisposedIn(hierarchy[i].declaration)
  {
  }

  /** A member assigned in a `[OneTimeSetUp]` method is judged by the first
      `[OneTimeTearDown]` method when no `[SetUp]` attribute intervenes. */
  lemma OneTimeSetUpJudgedByOneTimeTearDown(site: AssignmentSite, hierarchy: seq<MemberDecl>, isDisposedIn: Method -> bool, i: nat)
    requires site.InMethod? && !HasAttribute(site.declaration, SetUp) && HasAttribute(site.declaration, OneTimeSetUp)
    requires Seqs.IsFirst(hierarchy, m => IsMethodWith(m, OneTimeTearDown), i)
    ensures IsAssignedAndDisposedInSetupAndTearDown(site, hierarchy, isDisposedIn) == isDisposedIn(hierarchy[i].declaration)
  {
  }

  /** Without a paired teardown method the answer is false, whatever the
      disposal query would say. */
  lemma NoPairedTearDownIsFalse(site: AssignmentSite, hierarchy: seq<MemberDecl>, isDisposedIn: Method -> bool)
    requires site.InMethod?
    requires HasAttribute(site.declaration, SetUp) ==> forall j :: 0 <= j < |hierarchy| ==> !IsMethodWith(hierarchy[j], TearDown)
    requires HasAttribute(site.declaration, OneTimeSetUp) ==> forall j :: 0 <= j < |hierarchy| ==> !IsMethodWith(hierarchy[j], OneTimeTearDown)
    ensures !IsAssignedAndDisposedInSetupAndTearDown(site, hierarchy, isDisposedIn)
  {
  }

  /** The setup attribute of the method holding the single assignment:
      SetUp is looked for first, then OneTimeSetUp. */
  function IsAssignedInSetUp(site: AssignmentSite): (r: Option<AttributeType>)
    ensures r.Some? <==>
      site.InMethod? && (HasAttribute(site.declaration, SetUp) || HasAttribute(site.declaration, OneTimeSetUp))
    ensures r.Some? ==> r.value in site.declaration.attributes && (r.value == SetUp || r.value == OneTimeSetUp)
    ensures r.Some? && r.value == OneTimeSetUp ==> !HasAttribute(site.declaration, SetUp)
  {
    match site
    case InMethod(m) =>
      if HasAttribute(m, SetUp) then Some(SetUp)
      else if HasAttribute(m, OneTimeSetUp) then Some(OneTimeSetUp)
      else None
    case _ => None
  }

  /** The two queries agree on who may be disposed: a member counted as
      disposed in a teardown method is one the setup query reports. */
  lemma DisposedInTearDownIsAssignedInSetUp(site: AssignmentSite, hierarchy: seq<MemberDecl>, isDisposedIn: Method -> bool)
    requires IsAssignedAndDisposedInSetupAndTearDown(site, hierarchy, isDisposedIn)
    ensures IsAssignedInSetUp(site).Some?
  {
  }

  /** The first method of the attribute's type declaration, in declaration
      order, that carries the teardown attribute paired with the attribute;
      nothing when the attribute has no enclosing type or no member matches. */
  function TryGetTearDownMethod(setUp: AttributeNode): (r: Option<nat>)
    ensures setUp.enclosingType.None? ==> r.None?
    ensures r.Some? ==>
      && setUp.enclosingType.Some?
      && var members := setUp.enclosingType.value.members;
         && r.value < |members|
         && IsMethodWith(members[r.value], TearDownAttributeFor(setUp.resolvedType))
         && forall j :: 0 <= j < r.value ==> !IsMethodWith(members[j], TearDownAttributeFor(setUp.resolvedType))
    ensures setUp.enclosingType.Some? && r.None? ==>
      forall j :: 0 <= j < |setUp.enclosingType.value.members| ==>
        !IsMethodWith(setUp.enclosingType.value.members[j], TearDownAttributeFor(setUp.resolvedType))
  {
    match setUp.enclosingType
    case None => None
    case Some(t) => FirstMethodWith(t.members, TearDownAttributeFor(setUp.resolvedType))
  }

  /** When the recursive search starts with the fixture's own members, the
      fixture query gives the disposal verdict of exactly the method the
      teardown lookup finds for the setup attribute. */
  lemma FixtureQueryUsesTearDownLookup(
    site: AssignmentSite, fixture: TypeDecl, bases: seq<MemberDecl>, isDisposedIn: Method -> bool)
    requires IsAssignedInSetUp(site).Some?
    requires TryGetTearDownMethod(AttributeNode(IsAssignedInSetUp(site), Some(fixture))).Some?
    ensures var i := TryGetTearDownMethod(AttributeNode(IsAssignedInSetUp(site), Some(fixture))).value;
            IsAssignedAndDisposedInSetupAndTearDown(site, fixture.members + bases, isDisposedIn) ==
            isDisposedIn(fixture.members[i].declaration)
  {
    var a := TearDownAttributeFor(IsAssignedInSetUp(site));
    Seqs.FirstIndexOfPrefix(fixture.members, bases, m => IsMethodWith(m, a));
    var i := FirstMethodWith(fixture.members, a).value;
    assert FirstMethodWith(fixture.members + bases, a) == Some(i);
    assert (fixture.members + bases)[i] == fixture.members[i];
  }
}
