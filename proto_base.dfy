/**
 * The dictionary-backed message object the schema classes build on: a field
 * store with set/get/has/clear, a schema table filled by field definitions,
 * oneof bookkeeping, and the routing of attribute access to the store.
 */
module ProtoBase {
  import opened Wrappers
  import opened Bytes

  /** The values a field can hold. */
  datatype Value =
    | NoneValue
    | IntValue(i: int)
    | StrValue(s: string)
    | BytesValue(b: seq<byte>)
    | ListValue(items: seq<Value>)
    | DictValue(entries: map<string, Value>)
    | TypeValue(t: FieldType)

  /** The `field_type` argument of a definition: a scalar type or a message class. */
  datatype FieldType = IntType | StrType | BytesType | MessageType(name: string)

  /** The concrete class being built: the base behaviour, or a routable message with its two destinations. */
  datatype MessageKind = Plain | Routable

  /** Reading an attribute that is neither set on the object nor a field name. */
  datatype AttributeError = NoSuchAttribute(name: string)

  /** Python truthiness of the `oneof_group` argument: None and the empty name are false. */
  predicate GroupGiven(group: Option<string>)
  {
    group.Some? && group.value != ""
  }

  predicate Private(name: string)
  {
    |name| > 0 && name[0] == '_'
  }

  /** Names whose assignment sets an attribute of the object rather than a field. */
  predicate ObjectAttribute(name: string)
  {
    Private(name) || name in ["serialize_to_string", "parse_from_string"]
  }

  /** The four dictionaries `__init__` sets on the object itself, which normal attribute lookup finds. */
  predicate InternalStore(name: string)
  {
    name == "_fields" || name == "_field_types" || name == "_field_numbers" || name == "_oneof_groups"
  }

  /** `_field_types` seen as a value: each name maps to its type object. */
  function TypesValue(types: map<string, FieldType>): Value
  {
    DictValue(map n | n in types :: TypeValue(types[n]))
  }

  /** `_field_numbers` seen as a value: each name maps to its number. */
  function NumbersValue(numbers: map<string, int>): Value
  {
    DictValue(map n | n in numbers :: IntValue(numbers[n]))
  }

  function NamesValue(names: seq<string>): (r: Value)
    ensures r.ListValue? && |r.items| == |names|
    ensures forall i :: 0 <= i < |names| ==> r.items[i] == StrValue(names[i])
  {
    ListValue(seq(|names|, i requires 0 <= i < |names| => StrValue(names[i])))
  }

  /** `_oneof_groups` seen as a value: each group maps to the list of its member names. */
  function GroupsValue(groups: map<string, seq<string>>): Value
  {
    DictValue(map g | g in groups :: NamesValue(groups[g]))
  }

  /** The schema table a value stands for, when it is a dictionary of type objects. */
  function TypesOf(v: Value): Option<map<string, FieldType>>
  {
    if v.DictValue? && forall n :: n in v.entries ==> v.entries[n].TypeValue? then
      Some(map n | n in v.entries :: v.entries[n].t)
    else None
  }

  /** The number table a value stands for, when it is a dictionary of integers. */
  function NumbersOf(v: Value): Option<map<string, int>>
  {
    if v.DictValue? && forall n :: n in v.entries ==> v.entries[n].IntValue? then
      Some(map n | n in v.entries :: v.entries[n].i)
    else None
  }

  predicate IsNames(v: Value)
  {
    v.ListValue? && forall i :: 0 <= i < |v.items| ==> v.items[i].StrValue?
  }

  function NamesOf(v: Value): seq<string>
    requires IsNames(v)
  {
    seq(|v.items|, i requires 0 <= i < |v.items| => v.items[i].s)
  }

  /** The oneof table a value stands for, when it is a dictionary of lists of names. */
  function GroupsOf(v: Value): Option<map<string, seq<string>>>
  {
    if v.DictValue? && forall g :: g in v.entries ==> IsNames(v.entries[g]) then
      Some(map g | g in v.entries :: NamesOf(v.entries[g]))
    else None
  }

  /** Each internal table is read back from its value form. */
  lemma InternalTablesRoundTrip(types: map<string, FieldType>, numbers: map<string, int>, groups: map<string, seq<string>>)
    ensures TypesOf(TypesValue(types)) == Some(types)
    ensures NumbersOf(NumbersValue(numbers)) == Some(numbers)
    ensures GroupsOf(GroupsValue(groups)) == Some(groups)
  {
    var tv, nv, gv := TypesValue(types), NumbersValue(numbers), GroupsValue(groups);
    assert TypesOf(tv).Some?;
    assert TypesOf(tv).value.Keys == types.Keys;
    assert forall n :: n in types ==> TypesOf(tv).value[n] == types[n];
    assert TypesOf(tv).value == types;
    assert NumbersOf(nv).Some?;
    assert NumbersOf(nv).value.Keys == numbers.Keys;
    assert forall n :: n in numbers ==> NumbersOf(nv).value[n] == numbers[n];
    assert NumbersOf(nv).value == numbers;
    forall g | g in groups
      ensures NamesOf(NamesValue(groups[g])) == groups[g]
    {
    }
    assert GroupsOf(gv).Some?;
    assert GroupsOf(gv).value.Keys == groups.Keys;
    assert forall g :: g in groups ==> GroupsOf(gv).value[g] == groups[g];
    assert GroupsOf(gv).value == groups;
  }

  /** A value that stands for a table is the value form of that table. */
  lemma InternalValuesRoundTrip(v: Value)
    ensures TypesOf(v).Some? ==> TypesValue(TypesOf(v).value) == v
    ensures NumbersOf(v).Some? ==> NumbersValue(NumbersOf(v).value) == v
    ensures GroupsOf(v).Some? ==> GroupsValue(GroupsOf(v).value) == v
  {
    if TypesOf(v).Some? {
      assert TypesValue(TypesOf(v).value).entries == v.entries;
    }
    if NumbersOf(v).Some? {
      assert NumbersValue(NumbersOf(v).value).entries == v.entries;
    }
    if GroupsOf(v).Some? {
      forall g | g in v.entries
        ensures NamesValue(NamesOf(v.entries[g])) == v.entries[g]
      {
      }
      assert GroupsValue(GroupsOf(v).value).entries == v.entries;
    }
  }

  /** Whether a value has the form of the internal store it is assigned to. */
  predicate ValueForm(name: string, v: Value)
  {
    match name
    case "_fields" => v.DictValue?
    case "_field_types" => TypesOf(v).Some?
    case "_field_numbers" => NumbersOf(v).Some?
    case "_oneof_groups" => GroupsOf(v).Some?
    case _ => true
  }

  /** The fields a freshly constructed message of the given kind holds once its keyword values are set. */
  function InitialFields(kind: MessageKind, kwargs: map<string, Value>): (r: map<string, Value>)
    ensures forall n :: n in kwargs ==> n in r && r[n] == kwargs[n]
    ensures kind == Plain ==> r == kwargs
    ensures kind == Routable ==> r.Keys == kwargs.Keys + {"to_destination", "from_destination"}
    ensures kind == Routable && "to_destination" !in kwargs ==> r["to_destination"] == DictValue(map[])
    ensures kind == Routable && "from_destination" !in kwargs ==> r["from_destination"] == DictValue(map[])
  {
    match kind
    case Plain => kwargs
    case Routable =>
      var withTo := if "to_destination" in kwargs then kwargs else kwargs["to_destination" := DictValue(map[])];
      if "from_destination" in withTo then withTo else withTo["from_destination" := DictValue(map[])]
  }

  class ProtobufMessage {
    var fields: map<string, Value>
    var fieldTypes: map<string, FieldType>
    var fieldNumbers: map<string, int>
    var oneofGroups: map<string, seq<string>>
    /**
     * Attributes set on the object itself through an underscore or reserved
     * name, other than the four internal stores, which the fields above hold.
     */
    var attributes: map<string, Value>

    /** Only names that `__setattr__` sends to the object, and not the internal stores, are attributes. */
    ghost predicate Valid()
      reads this
    {
      forall n :: n in attributes ==> ObjectAttribute(n) && !InternalStore(n)
    }

    /**
     * `__init__(**kwargs)`, with the destination defaults of a routable
     * message. The four internal stores start empty, and no other attribute
     * is set on the object.
     */
    constructor (kind: MessageKind, kwargs: map<string, Value>)
      ensures fields == InitialFields(kind, kwargs)
      ensures fieldTypes == map[] && fieldNumbers == map[] && oneofGroups == map[] && attributes == map[]
      ensures Valid()
    {
      var store: map<string, Value> := map[];
      var pending := kwargs.Keys;
      while pending != {}
        invariant pending <= kwargs.Keys
        invariant store.Keys == kwargs.Keys - pending
        invariant forall n :: n in store ==> store[n] == kwargs[n]
        decreases pending
      {
        var key :| key in pending;
        store := store[key := kwargs[key]];
        pending := pending - {key};
      }
      assert store == kwargs;
      if kind == Routable {
        if "to_destination" !in store {
          store := store["to_destination" := DictValue(map[])];
        }
        if "from_destination" !in store {
          store := store["from_destination" := DictValue(map[])];
        }
      }
      fields := store;
      fieldTypes, fieldNumbers, oneofGroups, attributes := map[], map[], map[], map[];
    }

    /**
     * `_define_field`: records the type and number, appends the name to its
     * oneof group (in call order, repeats included), and starts a repeated
     * field as an empty list only when it holds nothing yet.
     */
    method DefineField(name: string, number: int, fieldType: FieldType, group: Option<string>, repeated: bool)
      modifies this
      ensures fieldTypes == old(fieldTypes)[name := fieldType]
      ensures fieldNumbers == old(fieldNumbers)[name := number]
      ensures oneofGroups == if GroupGiven(group) then
          old(oneofGroups)[group.value := (if group.value in old(oneofGroups) then old(oneofGroups)[group.value] else []) + [name]]
        else old(oneofGroups)
      ensures fields == if repeated && name !in old(fields) then old(fields)[name := ListValue([])] else old(fields)
      ensures attributes == old(attributes)
    {
      fieldTypes := fieldTypes[name := fieldType];
      fieldNumbers := fieldNumbers[name := number];
      if GroupGiven(group) {
        var g := group.value;
        if g !in oneofGroups {
          oneofGroups := oneofGroups[g := []];
        }
        oneofGroups := oneofGroups[g := oneofGroups[g] + [name]];
      }
      if repeated && name !in fields {
        fields := fields[name := ListValue([])];
      }
    }

    /**
     * `set_field`: the name now holds the value and no other entry changes.
     * Nothing consults the oneof groups, so setting one member leaves its
     * siblings set.
     */
    method SetField(name: string, value: Value)
      modifies this`fields
      ensures fields == old(fields)[name := value]
      ensures GetField(name, NoneValue) == value
      ensures forall n :: n != name ==> (n in fields <==> n in old(fields)) && (n in fields ==> fields[n] == old(fields)[n])
    {
      fields := fields[name := value];
    }

    /** `get_field`: the stored value, or the default for a name that holds none. */
    function GetField(name: string, default: Value): (r: Value)
      reads this
      ensures name !in fields ==> r == default
      ensures name in fields ==> r == fields[name]
    {
      if name in fields then fields[name] else default
    }

    /** `has_field`: present and not None. */
    function HasField(name: string): (r: bool)
      reads this
      ensures r <==> GetField(name, NoneValue) != NoneValue
    {
      name in fields && fields[name] != NoneValue
    }

    /** `clear_field`: the name is gone afterwards; an absent name changes nothing. */
    method ClearField(name: string)
      modifies this`fields
      ensures fields == old(fields) - {name}
      ensures !HasField(name) && GetField(name, NoneValue) == NoneValue
      ensures name !in old(fields) ==> fields == old(fields)
    {
      if name in fields {
        fields := fields - {name};
      }
    }

    /**
     * `__setattr__`: underscore and reserved names set an attribute of the
     * object, every other name a field. Assigning one of the four internal
     * stores replaces that store, as the methods read it.
     */
    method SetAttribute(name: string, value: Value)
      requires Valid()
      modifies this
      ensures Valid()
      ensures fields == if name == "_fields" then (if value.DictValue? then value.entries else old(fields))
        else if ObjectAttribute(name) then old(fields) else old(fields)[name := value]
      ensures fieldTypes == if name == "_field_types" && TypesOf(value).Some? then TypesOf(value).value else old(fieldTypes)
      ensures fieldNumbers == if name == "_field_numbers" && NumbersOf(value).Some? then NumbersOf(value).value else old(fieldNumbers)
      ensures oneofGroups == if name == "_oneof_groups" && GroupsOf(value).Some? then GroupsOf(value).value else old(oneofGroups)
      ensures attributes == if ObjectAttribute(name) && !InternalStore(name) then old(attributes)[name := value] else old(attributes)
      ensures !InternalStore(name) || ValueForm(name, value) ==> GetAttribute(name) == Ok(value)
    {
      if name == "_fields" {
        if value.DictValue? {
          fields := value.entries;
        }
      } else if name == "_field_types" {
        if TypesOf(value).Some? {
          fieldTypes := TypesOf(value).value;
          InternalValuesRoundTrip(value);
        }
      } else if name == "_field_numbers" {
        if NumbersOf(value).Some? {
          fieldNumbers := NumbersOf(value).value;
          InternalValuesRoundTrip(value);
        }
      } else if name == "_oneof_groups" {
        if GroupsOf(value).Some? {
          oneofGroups := GroupsOf(value).value;
          InternalValuesRoundTrip(value);
        }
      } else if ObjectAttribute(name) {
        attributes := attributes[name := value];
      } else {
        SetField(name, value);
      }
    }

    /**
     * Attribute reading: the four internal stores and any other attribute set
     * on the object are found by normal lookup; otherwise `__getattr__`
     * refuses underscore names and reads any other name as a field, None when
     * it is unset.
     */
    function GetAttribute(name: string): (r: Result<Value, AttributeError>)
      reads this
      ensures name == "_fields" ==> r == Ok(DictValue(ToDict()))
      ensures name == "_field_types" ==> r.Ok? && TypesOf(r.value) == Some(fieldTypes)
      ensures name == "_field_numbers" ==> r.Ok? && NumbersOf(r.value) == Some(fieldNumbers)
      ensures name == "_oneof_groups" ==> r.Ok? && GroupsOf(r.value) == Some(oneofGroups)
      ensures !InternalStore(name) && name in attributes ==> r == Ok(attributes[name])
      ensures !InternalStore(name) && name !in attributes && Private(name) ==> r == Err(NoSuchAttribute(name))
      ensures !InternalStore(name) && name !in attributes && !Private(name) ==> r == Ok(GetField(name, NoneValue))
    {
      InternalTablesRoundTrip(fieldTypes, fieldNumbers, oneofGroups);
      if name == "_fields" then Ok(DictValue(fields))
      else if name == "_field_types" then Ok(TypesValue(fieldTypes))
      else if name == "_field_numbers" then Ok(NumbersValue(fieldNumbers))
      else if name == "_oneof_groups" then Ok(GroupsValue(oneofGroups))
      else if name in attributes then Ok(attributes[name])
      else if Private(name) then Err(NoSuchAttribute(name))
      else Ok(GetField(name, NoneValue))
    }

    /** `message_to_dict`: a copy of the field store. */
    function ToDict(): (r: map<string, Value>)
      reads this
      ensures forall n :: GetField(n, NoneValue) == (if n in r then r[n] else NoneValue)
      ensures r.Keys == fields.Keys
    {
      fields
    }
  }

  /** `create_message_from_dict`: a fresh message of the given class with each key of the dictionary set. */
  method CreateMessageFromDict(kind: MessageKind, data: map<string, Value>) returns (m: ProtobufMessage)
    ensures fresh(m)
    ensures m.fields == InitialFields(kind, map[]) + data
    ensures kind == Plain ==> m.ToDict() == data
  {
    m := new ProtobufMessage(kind, map[]);
    ghost var initial := m.fields;
    ghost var written: map<string, Value> := map[];
    var pending := data.Keys;
    while pending != {}
      invariant pending <= data.Keys
      invariant written.Keys == data.Keys - pending
      invariant forall n :: n in written ==> written[n] == data[n]
      invariant m.fields == initial + written
      modifies m
      decreases pending
    {
      var key :| key in pending;
      m.SetField(key, data[key]);
      MergeUpdate(initial, written, key, data[key]);
      written := written[key := data[key]];
      pending := pending - {key};
    }
    assert written == data;
  }

  /** Setting one more key after a merge is the merge with that key set. */
  lemma MergeUpdate(initial: map<string, Value>, written: map<string, Value>, key: string, v: Value)
    ensures (initial + written)[key := v] == initial + written[key := v]
  {
  }
}
