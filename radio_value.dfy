/**
 * The radio flag value of flags/radio_value.go: one selected string out of a
 * sorted option list. The constructor sorts the caller's slice in place and
 * keeps a reference to it; membership is decided by a binary search.
 */
module RadioValues {
  import opened Wrappers
  import opened Text

  ghost predicate Sorted(s: seq<string>) {
    forall i, j :: 0 <= i < j < |s| ==> LessOrEqual(s[i], s[j])
  }

  lemma LessOrEqualTransitive(a: string, b: string, c: string)
    requires LessOrEqual(a, b) && LessOrEqual(b, c)
    ensures LessOrEqual(a, c)
  {
    if a != b && b != c {
      LessTransitive(a, b, c);
    }
  }

  lemma LessOrEqualThenLess(a: string, b: string, c: string)
    requires LessOrEqual(a, b) && Less(b, c)
    ensures Less(a, c)
  {
    if a != b {
      LessTransitive(a, b, c);
    }
  }

  lemma LessThenLessOrEqual(a: string, b: string, c: string)
    requires Less(a, b) && LessOrEqual(b, c)
    ensures Less(a, c)
  {
    if b != c {
      LessTransitive(a, b, c);
    }
  }

  /** `slices.Sort` on a string slice: in place, ascending, a permutation. */
  method SortStrings(a: array<string>)
    modifies a
    ensures Sorted(a[..])
    ensures multiset(a[..]) == old(multiset(a[..]))
  {
    if a.Length == 0 {
      return;
    }
    var i := 1;
    while i < a.Length
      invariant 1 <= i <= a.Length
      invariant forall k, l :: 0 <= k < l < i ==> LessOrEqual(a[k], a[l])
      invariant multiset(a[..]) == old(multiset(a[..]))
    {
      var j := i;
      while j > 0 && Less(a[j], a[j - 1])
        invariant 0 <= j <= i
        invariant forall k, l :: 0 <= k < l <= i && k != j && l != j ==> LessOrEqual(a[k], a[l])
        invariant forall l :: j < l <= i ==> Less(a[j], a[l])
        invariant multiset(a[..]) == old(multiset(a[..]))
      {
        a[j], a[j - 1] := a[j - 1], a[j];
        j := j - 1;
      }
      if j > 0 {
        LessTotal(a[j], a[j - 1]);
        forall k | 0 <= k < j
          ensures LessOrEqual(a[k], a[j])
        {
          LessOrEqualTransitive(a[k], a[j - 1], a[j]);
        }
      }
      i := i + 1;
    }
  }

  class RadioValue {
    var value: string
    var options: array<string>

    ghost predicate Valid()
      reads this, options
    {
      Sorted(options[..])
    }

    /** `NewRadioValue(options...)`: the first option in the order given is
        selected (none gives ""), then the caller's slice is sorted in place
        and kept. */
    constructor (options: array<string>)
      modifies options
      ensures this.options == options
      ensures value == if options.Length > 0 then old(options[0]) else ""
      ensures Sorted(options[..]) && multiset(options[..]) == old(multiset(options[..]))
      ensures Valid()
    {
      value := if options.Length > 0 then options[0] else "";
      SortStrings(options);
      this.options := options;
    }

    /** `String()`: the selected value. */
    function String(): (s: string)
      reads this
      ensures s == value
    {
      value
    }

    /** `Set(v)`: any string is stored, nothing is checked, the options are
        left alone. */
    method Set(v: string) returns (err: Option<string>)
      requires Valid()
      modifies this`value
      ensures value == v && err == None
      ensures options == old(options) && Valid()
    {
      value := v;
      err := None;
    }

    /** `Options()`: the stored (sorted) slice itself, not a copy. */
    function Options(): (a: array<string>)
      reads this
      ensures a == options
    {
      options
    }

    /** `Validate()`: a binary search for the value among the sorted
        options; succeeds exactly when the value is one of them, otherwise
        reports all options. */
    method Validate() returns (err: Option<string>)
      requires Valid()
      ensures err == None <==> value in options[..]
      ensures err != None ==> err == Some(InvalidMessage(options[..]))
    {
      var lo, hi := 0, options.Length;
      while lo < hi
        invariant 0 <= lo <= hi <= options.Length
        invariant forall k :: 0 <= k < lo ==> Less(options[k], value)
        invariant forall k :: hi <= k < options.Length ==> !Less(options[k], value)
      {
        var mid := lo + (hi - lo) / 2;
        if Less(options[mid], value) {
          forall k | lo <= k < mid
            ensures Less(options[k], value)
          {
            LessOrEqualThenLess(options[k], options[mid], value);
          }
          lo := mid + 1;
        } else {
          forall k | mid < k < hi
            ensures !Less(options[k], value)
          {
            if Less(options[k], value) {
              LessOrEqualThenLess(options[mid], options[k], value);
            }
          }
          hi := mid;
        }
      }
      var found := lo < options.Length && options[lo] == value;
      if !found {
        forall k | 0 <= k < options.Length
          ensures options[k] != value
        {
          if k < lo {
            LessIrreflexive(value);
          } else {
            LessTotal(options[lo], value);
            LessThenLessOrEqual(value, options[lo], options[k]);
            LessIrreflexive(value);
          }
        }
        err := Some(InvalidMessage(options[..]));
      } else {
        err := None;
      }
    }
  }

  /** The message of ozzo's `ErrInInvalid` as `Validate` sets it. */
  function InvalidMessage(options: seq<string>): string {
    "Must be one of the following values: " + Join(options, ", ")
  }

  /** A radio value over no options can never validate: `NewRadioValue()`
      with an empty list starts at "" and no `Set` can reach an option. */
  method ValidateWithoutOptions(v: string) returns (err: Option<string>)
    ensures err == Some(InvalidMessage([]))
  {
    var none := new string[0];
    var rv := new RadioValue(none);
    assert rv.value == "";
    var _ := rv.Set(v);
    err := rv.Validate();
  }
}
