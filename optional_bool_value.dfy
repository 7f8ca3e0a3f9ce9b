/**
 * The tri-state flag value of flags/optional_bool_value.go: a pointer to a
 * bool that is nil until the flag is set. The model writes the pointer as an
 * `Option<bool>`: `None` is the nil pointer.
 */
module OptionalBools {
  import opened Wrappers

  /** `cast.ToBoolE` on a string, which defers to `strconv.ParseBool`. */
  function ParseBool(s: string): (r: Option<bool>)
    ensures r == Some(true) <==> s in {"1", "t", "T", "TRUE", "true", "True"}
    ensures r == Some(false) <==> s in {"0", "f", "F", "FALSE", "false", "False"}
  {
    if s in {"1", "t", "T", "TRUE", "true", "True"} then Some(true)
    else if s in {"0", "f", "F", "FALSE", "false", "False"} then Some(false)
    else None
  }

  /** The error `strconv.ParseBool` reports for an unparsable string. */
  function ParseError(s: string): string {
    "strconv.ParseBool: parsing \"" + s + "\": invalid syntax"
  }

  class OptionalBoolValue {
    var value: Option<bool>

    /** `NewOptionalBoolValue()`: unset. */
    constructor ()
      ensures value == None
    {
      value := None;
    }

    /** `Set(val)`: the pointer is allocated before parsing, so the value is
        set whether or not `val` parses; an unparsable string leaves it set
        to false and returns the parse error. */
    method Set(val: string) returns (err: Option<string>)
      modifies this
      ensures value.Some?
      ensures ParseBool(val).Some? ==> value == ParseBool(val) && err == None
      ensures ParseBool(val).None? ==> value == Some(false) && err == Some(ParseError(val))
    {
      var parsed := ParseBool(val);
      match parsed {
        case Some(b) =>
          value := Some(b);
          err := None;
        case None =>
          value := Some(false);
          err := Some(ParseError(val));
      }
    }

    /** `GetValue()`: (false, false) while unset, (the bool, true) once set. */
    function GetValue(): (r: (bool, bool))
      reads this
      ensures r.1 <==> value.Some?
      ensures r.1 ==> r.0 == value.value
      ensures !r.1 ==> !r.0
    {
      match value
      case None => (false, false)
      case Some(b) => (b, true)
    }

    /** `Value()`: the `driver.Value`, nil exactly while unset. */
    function Value(): (r: Option<bool>)
      reads this
      ensures r.None? <==> !GetValue().1
      ensures r.Some? ==> r.value == GetValue().0
    {
      value
    }
  }

  /** Whatever string the flag is given, the override is in effect
      afterwards: `GetValue` reports it set. */
  method SetThenGet(val: string) returns (override: bool, ok: bool)
    ensures ok
    ensures override == (ParseBool(val) == Some(true))
  {
    var v := new OptionalBoolValue();
    assert v.GetValue() == (false, false);
    var _ := v.Set(val);
    override, ok := v.GetValue().0, v.GetValue().1;
  }
}
