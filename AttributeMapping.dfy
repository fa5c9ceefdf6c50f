/**
 * AttributeDescriptor: one entry of an attribute mapping, naming the source
 * property, the target attribute, an optional converter and an optional default
 * value. Construction rejects a blank source or target name and trims all four
 * values, a missing converter or default becoming "".
 */
module AttributeMapping {
  import opened Wrappers
  import opened JavaStrings

  /** The four final fields; the getters of the class are the field accessors. */
  datatype AttributeDescriptor = AttributeDescriptor(
    sourceName: string,
    targetName: string,
    converterId: string,
    defaultValue: string)

  /** The IllegalArgumentExceptions construction throws. */
  datatype DescriptorError = SourceNameBlank | TargetNameBlank

  /** The four-argument constructor. */
  function NewAttributeDescriptor(sourceName: JString, targetName: JString, converterId: JString,
                                  defaultValue: JString): (r: Result<AttributeDescriptor, DescriptorError>)
    ensures r == Failure(SourceNameBlank) <==> IsBlank(sourceName)
    ensures r == Failure(TargetNameBlank) <==> !IsBlank(sourceName) && IsBlank(targetName)
    ensures r.Success? ==> r.value == AttributeDescriptor(Trim(sourceName.value), Trim(targetName.value),
                                                          TrimToEmpty(converterId), TrimToEmpty(defaultValue))
  {
    if IsBlank(sourceName) then Failure(SourceNameBlank)
    else if IsBlank(targetName) then Failure(TargetNameBlank)
    else Success(AttributeDescriptor(TrimToEmpty(sourceName), TrimToEmpty(targetName),
                                     TrimToEmpty(converterId), TrimToEmpty(defaultValue)))
  }

  /** The three-argument constructor: no default value. */
  function NewAttributeDescriptorWithConverter(sourceName: JString, targetName: JString, converterId: JString)
    : (r: Result<AttributeDescriptor, DescriptorError>)
    ensures r == NewAttributeDescriptor(sourceName, targetName, converterId, None)
    ensures r.Success? ==> r.value.defaultValue == ""
  {
    NewAttributeDescriptor(sourceName, targetName, converterId, None)
  }

  /** The two-argument constructor: no converter and no default value. */
  function NewAttributeDescriptorOfNames(sourceName: JString, targetName: JString)
    : (r: Result<AttributeDescriptor, DescriptorError>)
    ensures r == NewAttributeDescriptorWithConverter(sourceName, targetName, None)
    ensures r.Success? ==> r.value.converterId == "" && r.value.defaultValue == ""
  {
    NewAttributeDescriptorWithConverter(sourceName, targetName, None)
  }

  /** Every stored value is already trimmed: trimming it again changes nothing. */
  lemma StoredValuesTrimmed(sourceName: JString, targetName: JString, converterId: JString, defaultValue: JString)
    requires NewAttributeDescriptor(sourceName, targetName, converterId, defaultValue).Success?
    ensures var d := NewAttributeDescriptor(sourceName, targetName, converterId, defaultValue).value;
      Trim(d.sourceName) == d.sourceName && Trim(d.targetName) == d.targetName
      && Trim(d.converterId) == d.converterId && Trim(d.defaultValue) == d.defaultValue
  {
    TrimIdempotent(sourceName.value);
    TrimIdempotent(targetName.value);
    if converterId.Some? {
      TrimIdempotent(converterId.value);
    }
    if defaultValue.Some? {
      TrimIdempotent(defaultValue.value);
    }
  }

  /** Constructing again from a descriptor's own values gives the same descriptor, as long as its names are
      still not blank. */
  lemma ReconstructionIsIdentity(d: AttributeDescriptor, sourceName: JString, targetName: JString,
                                 converterId: JString, defaultValue: JString)
    requires NewAttributeDescriptor(sourceName, targetName, converterId, defaultValue) == Success(d)
    requires !IsBlank(Some(d.sourceName)) && !IsBlank(Some(d.targetName))
    ensures NewAttributeDescriptor(Some(d.sourceName), Some(d.targetName), Some(d.converterId), Some(d.defaultValue))
      == Success(d)
  {
    StoredValuesTrimmed(sourceName, targetName, converterId, defaultValue);
  }

  /** A source name made only of a control character passes the blank check but is stored as "". */
  lemma ControlCharacterNameStoredEmpty(targetName: string)
    requires !IsBlank(Some(targetName))
    ensures NewAttributeDescriptor(Some("\U{0}"), Some(targetName), None, None)
      == Success(AttributeDescriptor("", Trim(targetName), "", ""))
  {
    ControlCharacterIsNotBlankButTrimsAway();
  }

  const ToStringPrefix := "AttributeDescriptor[converterId:"
  const SourceNameLabel := ",sourceName:"
  const TargetNameLabel := ",targetName:"
  const DefaultValueLabel := ",defaultValue:"

  /** toString: the four values, labelled, converter first. */
  function ToString(d: AttributeDescriptor): (r: string)
    ensures |ToStringPrefix| < |r| && r[..|ToStringPrefix|] == ToStringPrefix && r[|r| - 1] == ']'
  {
    ToStringPrefix + d.converterId
      + (SourceNameLabel + d.sourceName + (TargetNameLabel + d.targetName + (DefaultValueLabel + d.defaultValue + "]")))
  }

  /** Reads a tag and the value after it, up to the next ','; None when the tag is not there. */
  function ReadField(s: string, tag: string): (r: Option<(string, string)>)
    ensures r.Some? ==> tag + r.value.0 + r.value.1 == s && ',' !in r.value.0
    ensures r.Some? ==> r.value.1 == [] || r.value.1[0] == ','
  {
    if |tag| <= |s| && s[..|tag|] == tag then
      var rest := s[|tag|..];
      var n := TokenLength(rest, ',');
      assert tag + rest[..n] + rest[n..] == s;
      Some((rest[..n], rest[n..]))
    else None
  }

  /** Reads a toString back into a descriptor. */
  function Parse(s: string): Option<AttributeDescriptor> {
    match ReadField(s, ToStringPrefix)
    case None => None
    case Some((converterId, afterConverter)) =>
      match ReadField(afterConverter, SourceNameLabel)
      case None => None
      case Some((sourceName, afterSource)) =>
        match ReadField(afterSource, TargetNameLabel)
        case None => None
        case Some((targetName, rest)) =>
          var n := |DefaultValueLabel|;
          if n < |rest| && rest[..n] == DefaultValueLabel && rest[|rest| - 1] == ']' then
            Some(AttributeDescriptor(sourceName, targetName, converterId, rest[n..|rest| - 1]))
          else None
  }

  /** Reading a field that is followed by the given text yields the value and that text. */
  lemma ReadFieldOf(tag: string, value: string, rest: string)
    requires ',' !in value
    requires rest == [] || rest[0] == ','
    ensures ReadField(tag + value + rest, tag) == Some((value, rest))
  {
    var s := tag + value + rest;
    assert s[..|tag|] == tag;
    assert s[|tag|..] == value + rest;
    var n := TokenLength(value + rest, ',');
    if n < |value| {
      assert false;
    }
    assert rest != [] ==> (value + rest)[|value|] == ',';
    assert (value + rest)[..n] == value;
    assert (value + rest)[n..] == rest;
  }

  /** The closing part of a toString, ",defaultValue:" + value + "]", gives the value back. */
  lemma ReadDefaultValue(defaultValue: string)
    ensures var tail := DefaultValueLabel + defaultValue + "]";
      |DefaultValueLabel| < |tail| && tail[..|DefaultValueLabel|] == DefaultValueLabel
      && tail[|tail| - 1] == ']' && tail[|DefaultValueLabel|..|tail| - 1] == defaultValue
  {
    var tail := DefaultValueLabel + defaultValue + "]";
    assert tail[..|DefaultValueLabel|] == DefaultValueLabel;
    assert tail[|DefaultValueLabel|..|tail| - 1] == defaultValue;
  }

  /** toString loses nothing when the converter, source and target names contain no ',': parsing gives the
      descriptor back. */
  lemma ParseToString(d: AttributeDescriptor)
    requires ',' !in d.converterId && ',' !in d.sourceName && ',' !in d.targetName
    ensures Parse(ToString(d)) == Some(d)
  {
    var tail := DefaultValueLabel + d.defaultValue + "]";
    var afterSource := TargetNameLabel + d.targetName + tail;
    var afterConverter := SourceNameLabel + d.sourceName + afterSource;
    ReadFieldOf(ToStringPrefix, d.converterId, afterConverter);
    assert ReadField(ToString(d), ToStringPrefix) == Some((d.converterId, afterConverter));
    ReadFieldOf(SourceNameLabel, d.sourceName, afterSource);
    ReadFieldOf(TargetNameLabel, d.targetName, tail);
    ReadDefaultValue(d.defaultValue);
  }

  /** Two descriptors whose names hold no ',' have the same toString only when they are equal. */
  lemma ToStringInjective(d: AttributeDescriptor, e: AttributeDescriptor)
    requires ',' !in d.converterId && ',' !in d.sourceName && ',' !in d.targetName
    requires ',' !in e.converterId && ',' !in e.sourceName && ',' !in e.targetName
    requires ToString(d) == ToString(e)
    ensures d == e
  {
    ParseToString(d);
    ParseToString(e);
  }
}
