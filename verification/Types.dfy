/** The values that every part of the data engine shares: JSON values, schema fields,
    document rows, the documents of an import file, and business errors. */
module Types {

  datatype Option<+T> = None | Some(value: T)

  datatype Result<+T, +E> = Ok(value: T) | Err(error: E)

  /** A decoded JSON value. Numbers are `real`: rounding of large integers is not modelled. */
  datatype Value =
    | Null
    | Bool(b: bool)
    | Num(n: real)
    | Str(s: string)
    | List(items: seq<Value>)
    | Obj(members: map<string, Value>)

  type Data = map<string, Value>

  /** The four type spellings a schema may use; every other spelling is `UnknownT`. */
  datatype FieldType = IntT | StringT | IntListT | StringListT | UnknownT(spelling: string)

  datatype Field = Field(
    name: string, ftype: FieldType, required: bool, sensitive: bool,
    maxChars: int, maxListItems: int)

  /** The type definition a write reads before its own transaction begins. */
  datatype Definition = Definition(
    fields: seq<Field>, unique: seq<string>, deprecated: bool, version: int)

  /** `Unset` is the empty string that an import file may carry. */
  datatype Status = Unset | Active | Deleted | OtherStatus(text: string)

  /** A point in time; `ZERO_TIME` is the zero value an import file leaves when it names no time. */
  type Time = int
  const ZERO_TIME: Time := 0

  const MAX_INT64: int := 0x7FFF_FFFF_FFFF_FFFF
  const OPERATOR_WIDTH: int := 64

  /** A stored row. */
  datatype Doc = Doc(
    id: int, version: int, status: Status, data: Data,
    createdBy: string, updatedBy: string, createdAt: Time, updatedAt: Time)

  type Rows = map<int, Doc>

  /** A document of an import file; `data` may be absent. */
  datatype FileDoc = FileDoc(
    id: int, version: int, status: Status, data: Option<Data>,
    createdBy: string, updatedBy: string, createdAt: Time, updatedAt: Time)

  datatype Code =
    | ValidationError | ReservedField | FieldDeprecated | NewRequiredField
    | DataNotFound | TypeDeprecated | Conflict | Internal

  /** What an error's details say besides the field. */
  datatype Reason = NoReason | UnknownField | MissingRequired | DuplicateOf(existing: int)

  datatype Error = Error(http: int, code: Code, field: string, reason: Reason)

  /** The `COALESCE(NULLIF(who, ''), 'system')` of every write statement. */
  function Operator(who: string): string {
    if who == "" then "system" else who
  }
}
