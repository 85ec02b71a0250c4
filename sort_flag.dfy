/**
 * The `aptmtSortable` command-line flag: a string that `Set` accepts only
 * when it names one of the three sort keys, and that `String` reads back.
 */
module SortFlags {
  import opened Wrappers

  const RENT := "r"
  const AVAIL_DATE := "d"
  const SQ_FEET := "s"

  const SET_ERROR := "must be one of \"r\", \"d\", or \"s\""

  /** `v` is one of the three recognised sort keys. */
  predicate IsSortKey(v: string) {
    v == RENT || v == AVAIL_DATE || v == SQ_FEET
  }

  /** The flag's value; it starts as Go's zero value, the empty string. */
  class SortFlag {
    var value: string

    /** Every value a flag can hold: unset, or one of the sort keys. */
    ghost predicate Valid()
      reads this
    {
      value == "" || IsSortKey(value)
    }

    constructor ()
      ensures Valid() && value == ""
    {
      value := "";
    }

    /** `String`: the current value; unset or a sort key. */
    function String(): (r: string)
      reads this
      requires Valid()
      ensures r == "" || IsSortKey(r)
    {
      value
    }

    /**
     * `Set`: store `v` if it is a sort key and report no error; otherwise
     * report the error and keep the old value.
     */
    method Set(v: string) returns (err: Option<string>)
      requires Valid()
      modifies this
      ensures Valid()
      ensures err.None? <==> IsSortKey(v)
      ensures err.None? ==> value == v && String() == v
      ensures err.Some? ==> value == old(value) && err.value == SET_ERROR
    {
      if v == RENT || v == AVAIL_DATE || v == SQ_FEET {
        value := v;
        err := None;
      } else {
        err := Some(SET_ERROR);
      }
    }
  }

  /** Every accepted value reads back, and every other value is refused without effect. */
  method SetThenString(v: string) returns (shown: string)
    ensures IsSortKey(v) ==> shown == v
    ensures !IsSortKey(v) ==> shown == ""
  {
    var flag := new SortFlag();
    var err := flag.Set(v);
    shown := flag.String();
  }
}
