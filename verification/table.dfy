/**
 The `Table` entity: a field record with null-able attributes, per-field
 setters, a field-wise `equals` and a `hashCode` over the same fields.
 */
module TableEntity {
  import opened Nullable
  import opened JavaLang
  import opened Entity

  /** An `OnSharePermission` value; its class is outside the model, so it is an opaque token. */
  datatype OnSharePermission = OnSharePermission(token: nat)

  datatype Table = Table(
    base: RemoteEntity,
    title: string,
    emoji: Option<string>,
    ownership: Option<string>,
    ownerDisplayName: Option<string>,
    createdBy: Option<string>,
    createdAt: Option<Instant>,
    lastEditBy: Option<string>,
    lastEditAt: Option<string>,
    isShared: bool,
    onSharePermission: Option<OnSharePermission>)

  /** The fields `Table` declares itself, one per getter/setter pair. */
  datatype Field =
    | Title | Emoji | Ownership | OwnerDisplayName | CreatedBy
    | CreatedAt | LastEditBy | LastEditAt | Shared | SharePermission

  /** A field's value, tagged by its Java type. */
  datatype FieldValue =
    | Text(text: Option<string>)
    | Moment(moment: Option<Instant>)
    | Flag(flag: bool)
    | Permission(permission: Option<OnSharePermission>)

  /** The getter of field `f`. */
  function Get(t: Table, f: Field): (v: FieldValue) {
    match f
    case Title => Text(Some(t.title))
    case Emoji => Text(t.emoji)
    case Ownership => Text(t.ownership)
    case OwnerDisplayName => Text(t.ownerDisplayName)
    case CreatedBy => Text(t.createdBy)
    case CreatedAt => Moment(t.createdAt)
    case LastEditBy => Text(t.lastEditBy)
    case LastEditAt => Text(t.lastEditAt)
    case Shared => Flag(t.isShared)
    case SharePermission => Permission(t.onSharePermission)
  }

  /** Whether `v` has the Java type of field `f`; `setTitle` takes a `@NonNull String`. */
  predicate Fits(f: Field, v: FieldValue) {
    match f
    case Title => v.Text? && v.text.Some?
    case CreatedAt => v.Moment?
    case Shared => v.Flag?
    case SharePermission => v.Permission?
    case _ => v.Text?
  }

  /** The setter of field `f`: a new snapshot differing from `t` in that field only. */
  function Set(t: Table, f: Field, v: FieldValue): (r: Table)
    requires Fits(f, v)
    ensures Get(r, f) == v
    ensures forall g :: g != f ==> Get(r, g) == Get(t, g)
    ensures r.base == t.base
  {
    match f
    case Title => t.(title := v.text.value)
    case Emoji => t.(emoji := v.text)
    case Ownership => t.(ownership := v.text)
    case OwnerDisplayName => t.(ownerDisplayName := v.text)
    case CreatedBy => t.(createdBy := v.text)
    case CreatedAt => t.(createdAt := v.moment)
    case LastEditBy => t.(lastEditBy := v.text)
    case LastEditAt => t.(lastEditAt := v.text)
    case Shared => t.(isShared := v.flag)
    case SharePermission => t.(onSharePermission := v.permission)
  }

  /** A table is determined by its base part and the values of its ten getters. */
  lemma Extensionality(a: Table, b: Table)
    requires a.base == b.base
    requires forall f :: Get(a, f) == Get(b, f)
    ensures a == b
  {
    assert Get(a, Title) == Get(b, Title);
    assert Get(a, Emoji) == Get(b, Emoji);
    assert Get(a, Ownership) == Get(b, Ownership);
    assert Get(a, OwnerDisplayName) == Get(b, OwnerDisplayName);
    assert Get(a, CreatedBy) == Get(b, CreatedBy);
    assert Get(a, CreatedAt) == Get(b, CreatedAt);
    assert Get(a, LastEditBy) == Get(b, LastEditBy);
    assert Get(a, LastEditAt) == Get(b, LastEditAt);
    assert Get(a, Shared) == Get(b, Shared);
    assert Get(a, SharePermission) == Get(b, SharePermission);
  }

  /** Setting a field to the value it already holds changes nothing. */
  lemma SetCurrentValue(t: Table, f: Field)
    ensures Fits(f, Get(t, f)) && Set(t, f, Get(t, f)) == t
  {
    var r := Set(t, f, Get(t, f));
    Extensionality(r, t);
  }

  /** Two setters on different fields commute. */
  lemma SettersCommute(t: Table, f: Field, v: FieldValue, g: Field, w: FieldValue)
    requires f != g && Fits(f, v) && Fits(g, w)
    ensures Set(Set(t, f, v), g, w) == Set(Set(t, g, w), f, v)
  {
    Extensionality(Set(Set(t, f, v), g, w), Set(Set(t, g, w), f, v));
  }

  /** `new Table()`: a non-null empty title, every other reference null, not shared. */
  function NewTable(base: RemoteEntity): (t: Table)
    ensures t.base == base
    ensures Get(t, Title) == Text(Some(""))
    ensures Get(t, Shared) == Flag(false)
    ensures forall f :: f != Title && f != Shared ==>
      Get(t, f) in {Text(Null), Moment(Null), Permission(Null)}
  {
    Table(base, "", Null, Null, Null, Null, Null, Null, Null, false, Null)
  }

  /**
   The behaviour of the classes `Table` delegates to but that are not part of
   the model: `AbstractRemoteEntity.equals/hashCode` and
   `OnSharePermission.equals/hashCode`.
   */
  datatype Delegates = Delegates(
    superEquals: (RemoteEntity, RemoteEntity) -> bool,
    superHash: RemoteEntity -> int,
    permissionEquals: (OnSharePermission, OnSharePermission) -> bool,
    permissionHash: OnSharePermission -> int)

  /** The delegates keep the `equals`/`hashCode` contract: equal objects hash alike. */
  ghost predicate Consistent(d: Delegates) {
    && (forall a, b :: d.superEquals(a, b) ==> d.superHash(a) == d.superHash(b))
    && (forall a, b :: d.permissionEquals(a, b) ==> d.permissionHash(a) == d.permissionHash(b))
  }

  /** An argument of `equals(Object)`: null, a `Table` at some reference, or an object of another class. */
  datatype Object = NullObject | TableObject(ref: nat, table: Table) | OtherObject(ref: nat)

  function StringEquals(a: string, b: string): (same: bool) {
    a == b
  }

  function InstantEquals(a: Instant, b: Instant): (same: bool) {
    a == b
  }

  /** Field comparison as `Objects.equals`/`==` does it, for the value of one field. */
  function FieldEquals(a: FieldValue, b: FieldValue, d: Delegates): (same: bool) {
    match (a, b)
    case (Text(x), Text(y)) => ObjectsEquals(x, y, StringEquals)
    case (Moment(x), Moment(y)) => ObjectsEquals(x, y, InstantEquals)
    case (Flag(x), Flag(y)) => x == y
    case (Permission(x), Permission(y)) => ObjectsEquals(x, y, d.permissionEquals)
    case _ => false
  }

  /** `Table.equals(o)` called on the table `t` stored at reference `self`. */
  function Equals(self: nat, t: Table, o: Object, d: Delegates): (b: bool)
    ensures o.TableObject? && o.ref == self ==> b
    ensures b ==> o.TableObject? && (o.ref == self || d.superEquals(t.base, o.table.base))
  {
    if o.TableObject? && o.ref == self then true
    else if !o.TableObject? then false
    else if !d.superEquals(t.base, o.table.base) then false
    else
      var u := o.table;
      && t.isShared == u.isShared
      && t.title == u.title
      && ObjectsEquals(t.emoji, u.emoji, StringEquals)
      && ObjectsEquals(t.ownership, u.ownership, StringEquals)
      && ObjectsEquals(t.ownerDisplayName, u.ownerDisplayName, StringEquals)
      && ObjectsEquals(t.createdBy, u.createdBy, StringEquals)
      && ObjectsEquals(t.createdAt, u.createdAt, InstantEquals)
      && ObjectsEquals(t.lastEditBy, u.lastEditBy, StringEquals)
      && ObjectsEquals(t.lastEditAt, u.lastEditAt, StringEquals)
      && ObjectsEquals(t.onSharePermission, u.onSharePermission, d.permissionEquals)
  }

  /** `Table.hashCode`: `Objects.hash(super.hashCode(), title, …, isShared, onSharePermission)`. */
  function HashCode(t: Table, d: Delegates): (h: int)
    ensures IsInt(h)
  {
    ObjectsHash([
      d.superHash(t.base),
      StringHash(t.title),
      NullableHash(t.emoji, StringHash),
      NullableHash(t.ownership, StringHash),
      NullableHash(t.ownerDisplayName, StringHash),
      NullableHash(t.createdBy, StringHash),
      NullableHash(t.createdAt, InstantHash),
      NullableHash(t.lastEditBy, StringHash),
      NullableHash(t.lastEditAt, StringHash),
      BooleanHash(t.isShared),
      NullableHash(t.onSharePermission, d.permissionHash)])
  }

  /** `equals` is reflexive, whatever the superclass does: `this == o` answers first. */
  lemma EqualsReflexive(self: nat, t: Table, d: Delegates)
    ensures Equals(self, t, TableObject(self, t), d)
  {
  }

  /** `equals` is false for null and for an object of another class. */
  lemma EqualsRejectsOtherClasses(self: nat, t: Table, ref: nat, d: Delegates)
    ensures !Equals(self, t, NullObject, d)
    ensures !Equals(self, t, OtherObject(ref), d)
  {
  }

  /**
   Between two distinct references, `equals` holds exactly when the superclass
   parts are equal and every one of the ten declared fields compares equal.
   */
  lemma EqualsComparesEveryField(self: nat, t: Table, ref: nat, u: Table, d: Delegates)
    requires ref != self
    ensures Equals(self, t, TableObject(ref, u), d) <==>
      d.superEquals(t.base, u.base) && forall f :: FieldEquals(Get(t, f), Get(u, f), d)
  {
    if Equals(self, t, TableObject(ref, u), d) {
      EqualFieldsFromEquals(self, t, ref, u, d);
    }
    if d.superEquals(t.base, u.base) && forall f :: FieldEquals(Get(t, f), Get(u, f), d) {
      EqualsFromEqualFields(self, t, ref, u, d);
    }
  }

  lemma EqualFieldsFromEquals(self: nat, t: Table, ref: nat, u: Table, d: Delegates)
    requires ref != self && Equals(self, t, TableObject(ref, u), d)
    ensures d.superEquals(t.base, u.base) && forall f :: FieldEquals(Get(t, f), Get(u, f), d)
  {
    forall f
      ensures FieldEquals(Get(t, f), Get(u, f), d)
    {
      match f
      case Title =>
      case Emoji =>
      case Ownership =>
      case OwnerDisplayName =>
      case CreatedBy =>
      case CreatedAt =>
      case LastEditBy =>
      case LastEditAt =>
      case Shared =>
      case SharePermission =>
    }
  }

  lemma EqualsFromEqualFields(self: nat, t: Table, ref: nat, u: Table, d: Delegates)
    requires ref != self && d.superEquals(t.base, u.base)
    requires forall f :: FieldEquals(Get(t, f), Get(u, f), d)
    ensures Equals(self, t, TableObject(ref, u), d)
  {
    assert FieldEquals(Get(t, Title), Get(u, Title), d);
    assert FieldEquals(Get(t, Emoji), Get(u, Emoji), d);
    assert FieldEquals(Get(t, Ownership), Get(u, Ownership), d);
    assert FieldEquals(Get(t, OwnerDisplayName), Get(u, OwnerDisplayName), d);
    assert FieldEquals(Get(t, CreatedBy), Get(u, CreatedBy), d);
    assert FieldEquals(Get(t, CreatedAt), Get(u, CreatedAt), d);
    assert FieldEquals(Get(t, LastEditBy), Get(u, LastEditBy), d);
    assert FieldEquals(Get(t, LastEditAt), Get(u, LastEditAt), d);
    assert FieldEquals(Get(t, Shared), Get(u, Shared), d);
    assert FieldEquals(Get(t, SharePermission), Get(u, SharePermission), d);
  }

  /**
   `hashCode` agrees with `equals`: equal tables have equal hash codes, given
   that the delegates keep the contract and that one reference denotes one object.
   */
  lemma EqualsImpliesEqualHash(self: nat, t: Table, ref: nat, u: Table, d: Delegates)
    requires Consistent(d)
    requires ref == self ==> u == t
    requires Equals(self, t, TableObject(ref, u), d)
    ensures HashCode(t, d) == HashCode(u, d)
  {
    if ref != self {
      assert d.superHash(t.base) == d.superHash(u.base);
      assert NullableHash(t.onSharePermission, d.permissionHash)
          == NullableHash(u.onSharePermission, d.permissionHash);
    }
  }

  /** `hashCode` reads no more than `equals` compares: the base hash and the ten fields. */
  lemma HashDependsOnComparedFields(t: Table, u: Table, d: Delegates)
    requires d.superHash(t.base) == d.superHash(u.base)
    requires forall f :: Get(t, f) == Get(u, f)
    ensures HashCode(t, d) == HashCode(u, d)
  {
    assert Get(t, Title) == Get(u, Title);
    assert Get(t, Emoji) == Get(u, Emoji);
    assert Get(t, Ownership) == Get(u, Ownership);
    assert Get(t, OwnerDisplayName) == Get(u, OwnerDisplayName);
    assert Get(t, CreatedBy) == Get(u, CreatedBy);
    assert Get(t, CreatedAt) == Get(u, CreatedAt);
    assert Get(t, LastEditBy) == Get(u, LastEditBy);
    assert Get(t, LastEditAt) == Get(u, LastEditAt);
    assert Get(t, Shared) == Get(u, Shared);
    assert Get(t, SharePermission) == Get(u, SharePermission);
  }
}
