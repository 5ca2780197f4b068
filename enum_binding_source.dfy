/** The XAML markup extension that lists the values of an enum for a combo
    box, and the lookup of an enum value's description text
    (AcadLib/Model/WPF/Converters/EnumBindingSourceExtension.cs).

    Reflection is replaced by a type descriptor: what the code asks of a
    `Type` (is it an enum, is it `Nullable<T>` and of which T, what
    Enum.GetValues lists, which public fields it has and which Description
    attributes each carries). An enum value is its underlying number, so
    the default value of every enum is 0. */
module EnumBinding {
  import opened Wrappers

  /** A public field and the texts of its Description attributes, in the
      order GetCustomAttributes returns them. */
  datatype Field = Field(name: string, descriptions: seq<string>)

  datatype TypeDesc =
    | EnumType(name: string, values: seq<int>, fields: seq<Field>)
    | NullableOf(underlying: TypeDesc)
    | OtherType(name: string, fields: seq<Field>)

  /** A non-null object: its runtime type and its ToString() text. */
  datatype Obj = Obj(typ: TypeDesc, text: string)

  /** `Nullable.GetUnderlyingType(t) ?? t`. */
  function StripNullable(t: TypeDesc): (u: TypeDesc)
    ensures t.NullableOf? ==> u == t.underlying
    ensures !t.NullableOf? ==> u == t
  {
    match t
    case NullableOf(underlying) => underlying
    case _ => t
  }

  /** The types the EnumType setter accepts: an enum, or a nullable enum. */
  predicate IsEnumOrNullableEnum(t: TypeDesc): (b: bool)
    ensures b <==> t.EnumType? || (t.NullableOf? && t.underlying.EnumType?)
  {
    StripNullable(t).EnumType?
  }

  /** What ProvideValue returns for the type `t`: Enum.GetValues of the
      stripped type, with one leading default (0) slot when `t` is a
      nullable enum; GetValues throws for a type that is not an enum. */
  function ProvidedValues(t: TypeDesc): (r: Result<seq<int>>)
    ensures r.Throws? <==> !IsEnumOrNullableEnum(t)
    ensures r.Throws? ==> r.exception == ArgumentException
    ensures t.EnumType? ==> r == Ok(t.values)
    ensures t.NullableOf? && t.underlying.EnumType? ==>
              r.Ok? && |r.value| == |t.underlying.values| + 1 &&
              r.value[0] == 0 && r.value[1..] == t.underlying.values
  {
    var actual := StripNullable(t);
    if !actual.EnumType? then Throws(ArgumentException)
    else if actual == t then Ok(actual.values)
    else Ok([0] + actual.values)
  }

  class EnumBindingSourceExtension {
    /** `_enumType`; None stands for null. */
    var enumType: Option<TypeDesc>

    constructor ()
      ensures enumType == None
    {
      enumType := None;
    }

    /** The constructor taking a type runs the setter, so it throws where
        the setter does. */
    static method WithType(t: Option<TypeDesc>) returns (r: Result<EnumBindingSourceExtension>)
      ensures r.Throws? <==> t.Some? && !IsEnumOrNullableEnum(t.value)
      ensures r.Throws? ==> r.exception == ArgumentException
      ensures r.Ok? ==> fresh(r.value) && r.value.enumType == t
    {
      var e := new EnumBindingSourceExtension();
      var outcome := e.SetEnumType(t);
      if outcome.Throws? {
        return Throws(outcome.exception);
      }
      return Ok(e);
    }

    /** The EnumType setter: a new, non-null value must be an enum or a
        nullable enum, or the setter throws and keeps the old value. */
    method SetEnumType(value: Option<TypeDesc>) returns (outcome: Result<()>)
      modifies this
      ensures outcome.Throws? <==> value != old(enumType) && value.Some? && !IsEnumOrNullableEnum(value.value)
      ensures outcome.Throws? ==> outcome.exception == ArgumentException && enumType == old(enumType)
      ensures outcome.Ok? ==> enumType == value
    {
      if value != enumType {
        if value.Some? {
          var actual := StripNullable(value.value);
          if !actual.EnumType? {
            return Throws(ArgumentException);
          }
        }
        enumType := value;
      }
      return Ok(());
    }

    /** ProvideValue: throws when no type is set; otherwise a fresh array
        of the enum's values, shifted one slot right behind a default slot
        for a nullable enum. */
    method ProvideValue() returns (r: Result<array<int>>)
      ensures enumType.None? ==> r == Throws(InvalidOperationException)
      ensures enumType.Some? ==> (r.Throws? <==> ProvidedValues(enumType.value).Throws?)
      ensures enumType.Some? && r.Throws? ==> r.exception == ProvidedValues(enumType.value).exception
      ensures r.Ok? ==> enumType.Some? && fresh(r.value) && r.value[..] == ProvidedValues(enumType.value).value
    {
      if enumType.None? {
        return Throws(InvalidOperationException);
      }
      var actual := StripNullable(enumType.value);
      if !actual.EnumType? {
        return Throws(ArgumentException);
      }
      var values := actual.values;
      var enumValues := new int[|values|](i requires 0 <= i < |values| => values[i]);
      assert enumValues[..] == values;
      if actual == enumType.value {
        return Ok(enumValues);
      }
      // Array.CreateInstance fills the new array with default(E), which is 0
      var tempArray := new int[enumValues.Length + 1](_ => 0);
      // enumValues.CopyTo(tempArray, 1)
      var i := 0;
      while i < enumValues.Length
        invariant 0 <= i <= enumValues.Length
        invariant tempArray[0] == 0 && enumValues[..] == values
        invariant forall k :: 0 <= k < i ==> tempArray[k + 1] == values[k]
      {
        tempArray[i + 1] := enumValues[i];
        i := i + 1;
      }
      assert tempArray[..] == [0] + values by {
        forall k | 0 <= k < tempArray.Length ensures tempArray[..][k] == ([0] + values)[k] {
          if k > 0 { assert tempArray[k] == values[k - 1]; }
        }
      }
      return Ok(tempArray);
    }
  }

  /** The public fields of an object's runtime type. */
  function FieldsOf(t: TypeDesc): (fs: seq<Field>)
    ensures t.EnumType? ==> fs == t.fields
    ensures t.OtherType? ==> fs == t.fields
    ensures t.NullableOf? ==> fs == []
  {
    match t
    case EnumType(_, _, fields) => fields
    case OtherType(_, fields) => fields
    case NullableOf(_) => []
  }

  /** `Type.GetField(name)`: the field of that name, if any. */
  function FindField(fields: seq<Field>, name: string): (r: Option<Field>)
    ensures r.None? <==> forall k :: 0 <= k < |fields| ==> fields[k].name != name
    ensures r.Some? ==> r.value in fields && r.value.name == name
    decreases |fields|
  {
    if fields == [] then None
    else if fields[0].name == name then Some(fields[0])
    else FindField(fields[1..], name)
  }

  /** GetEnumDescription: null for null or for a value whose ToString()
      names no field; otherwise the first Description text of that field,
      or the ToString() text when it has none. */
  function GetEnumDescription(enumValue: Option<Obj>): (r: Option<string>)
    ensures enumValue.None? ==> r.None?
    ensures enumValue.Some? ==>
              (r.None? <==> forall k :: 0 <= k < |FieldsOf(enumValue.value.typ)| ==>
                                          FieldsOf(enumValue.value.typ)[k].name != enumValue.value.text)
  {
    match enumValue
    case None => None
    case Some(v) =>
      match FindField(FieldsOf(v.typ), v.text)
      case None => None
      case Some(fi) => if |fi.descriptions| > 0 then Some(fi.descriptions[0]) else Some(v.text)
  }

  /** The extension method `Description()` is GetEnumDescription. */
  function Description(enumValue: Option<Obj>): (r: Option<string>)
    ensures r == GetEnumDescription(enumValue)
  {
    GetEnumDescription(enumValue)
  }

  /** No two fields share a name, as in every .NET type. */
  ghost predicate UniqueFieldNames(fields: seq<Field>)
  {
    forall i, j :: 0 <= i < j < |fields| ==> fields[i].name != fields[j].name
  }

  lemma {:induction false} FindDeclaredField(fields: seq<Field>, k: nat)
    requires k < |fields| && UniqueFieldNames(fields)
    ensures FindField(fields, fields[k].name) == Some(fields[k])
    decreases k
  {
    if k > 0 {
      assert fields[0].name != fields[k].name;
      assert UniqueFieldNames(fields[1..]) by {
        forall i, j | 0 <= i < j < |fields| - 1 ensures fields[1..][i].name != fields[1..][j].name {
          assert fields[i + 1].name != fields[j + 1].name;
        }
      }
      FindDeclaredField(fields[1..], k - 1);
    }
  }

  /** For a declared member of an enum, whose ToString() is the member's
      name, Description gives the member's first Description text, or its
      name when it has none. */
  lemma DescriptionOfDeclaredMember(e: TypeDesc, k: nat)
    requires e.EnumType? && k < |e.fields| && UniqueFieldNames(e.fields)
    ensures var f := e.fields[k];
            Description(Some(Obj(e, f.name))) ==
              Some(if f.descriptions != [] then f.descriptions[0] else f.name)
  {
    FindDeclaredField(e.fields, k);
  }
}
