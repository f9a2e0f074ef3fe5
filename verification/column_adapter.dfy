/**
 `ColumnAdapter`: the wire form of a column's selection default. Multi-select
 columns carry their default as a serialized array; every other column type
 carries it unchanged.
 */
module ColumnAdapter {
  import opened Nullable
  import opened Entity

  /** The resolved column type; only multi-select is distinguished by this codec. */
  datatype DataType = SelectionMulti | OtherType(name: string)

  /** The parts of a `Column` the codec can see. */
  datatype Column = Column(
    base: RemoteEntity,
    tableId: LocalId,
    columnType: string,
    subtype: string,
    selectionDefault: Option<string>)

  /**
   Collaborators not part of the model: `EDataType.findByColumn` and
   `TablesSerializationUtil.serializeArray/deserializeArray`.
   */
  datatype Util = Util(
    findByColumn: Column -> DataType,
    serializeArray: Option<string> -> Option<string>,
    deserializeArray: string -> Option<string>)

  /** `s.replaceAll("\"", "")`: `s` with every double quote removed, order kept. */
  function StripQuotes(s: string): (r: string)
    ensures '"' !in r
    ensures forall c :: c in r <==> c in s && c != '"'
    ensures |r| <= |s|
    ensures '"' !in s ==> r == s
    decreases |s|
  {
    if s == [] then []
    else if s[0] == '"' then StripQuotes(s[1..])
    else [s[0]] + StripQuotes(s[1..])
  }

  /** Quote removal distributes over concatenation. */
  lemma {:induction false} StripQuotesAppend(a: string, b: string)
    ensures StripQuotes(a + b) == StripQuotes(a) + StripQuotes(b)
    decreases |a|
  {
    if a == [] {
      assert a + b == b;
    } else {
      assert (a + b)[0] == a[0];
      assert (a + b)[1..] == a[1..] + b;
      StripQuotesAppend(a[1..], b);
    }
  }

  /** Removing quotes twice is removing them once. */
  lemma StripQuotesIdempotent(s: string)
    ensures StripQuotes(StripQuotes(s)) == StripQuotes(s)
  {
  }

  /** `serializeSelectionDefault(column)`. */
  function SerializeSelectionDefault(c: Column, u: Util): (r: Option<string>)
    ensures u.findByColumn(c) != SelectionMulti ==> r == c.selectionDefault
    ensures u.findByColumn(c) == SelectionMulti ==> r == u.serializeArray(c.selectionDefault)
  {
    if u.findByColumn(c) == SelectionMulti then u.serializeArray(c.selectionDefault)
    else c.selectionDefault
  }

  /** `deserializeSelectionDefault(column)`. */
  function DeserializeSelectionDefault(c: Column, u: Util): (r: Option<string>)
    ensures u.findByColumn(c) != SelectionMulti ==> r == c.selectionDefault
    ensures u.findByColumn(c) == SelectionMulti && c.selectionDefault in {Null, Some("null")} ==> r == Null
    ensures u.findByColumn(c) == SelectionMulti && c.selectionDefault.Some? && c.selectionDefault.value != "null" ==>
      exists arg :: '"' !in arg && arg == StripQuotes(c.selectionDefault.value) && r == u.deserializeArray(arg)
  {
    if u.findByColumn(c) == SelectionMulti then
      match c.selectionDefault
      case Null => Null
      case Some(d) =>
        if d == "null" then Null
        else u.deserializeArray(StripQuotes(d))
    else c.selectionDefault
  }

  /**
   Both directions read only the resolved type and the selection default: two
   columns that agree on these are treated alike, whatever else differs.
   */
  lemma DependsOnlyOnTypeAndDefault(c1: Column, c2: Column, u: Util)
    requires u.findByColumn(c1) == u.findByColumn(c2)
    requires c1.selectionDefault == c2.selectionDefault
    ensures SerializeSelectionDefault(c1, u) == SerializeSelectionDefault(c2, u)
    ensures DeserializeSelectionDefault(c1, u) == DeserializeSelectionDefault(c2, u)
  {
  }

  /** For every column type but multi-select both directions are the identity, so they round-trip. */
  lemma NonMultiRoundTrip(c: Column, u: Util)
    requires u.findByColumn(c) != SelectionMulti
    ensures DeserializeSelectionDefault(c.(selectionDefault := SerializeSelectionDefault(c, u)), u) == c.selectionDefault
  {
  }

  /**
   For a multi-select column, defaults that differ only in their double quotes
   decode alike, unless one of them is exactly the `null` literal.
   */
  lemma MultiIgnoresQuotes(c1: Column, c2: Column, u: Util)
    requires u.findByColumn(c1) == SelectionMulti && u.findByColumn(c2) == SelectionMulti
    requires c1.selectionDefault.Some? && c2.selectionDefault.Some?
    requires c1.selectionDefault.value != "null" && c2.selectionDefault.value != "null"
    requires StripQuotes(c1.selectionDefault.value) == StripQuotes(c2.selectionDefault.value)
    ensures DeserializeSelectionDefault(c1, u) == DeserializeSelectionDefault(c2, u)
  {
  }

  /**
   The `null` literal is recognised before the quotes are removed: a quoted
   `"null"` reaches `deserializeArray` as the text `null` instead of decoding to null.
   */
  lemma QuotedNullLiteralIsNotNull(c: Column, u: Util)
    requires u.findByColumn(c) == SelectionMulti
    requires c.selectionDefault == Some("\"null\"")
    ensures DeserializeSelectionDefault(c, u) == u.deserializeArray("null")
  {
    assert StripQuotes("\"null\"") == "null" by {
      assert "\"null\""[1..] == "null\"";
      assert "null\""[1..] == "ull\"";
      assert "ull\""[1..] == "ll\"";
      assert "ll\""[1..] == "l\"";
      assert "l\""[1..] == "\"";
    }
  }
}
