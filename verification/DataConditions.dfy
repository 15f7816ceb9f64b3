/** SQL data conditions raised while a value is converted
    (datatypes/mcs_data_condition.h). */
module DataConditions {

  datatype Code = StringRightTruncation | NumericValueOutOfRange | InvalidCharacterValueForCast

  /** The out-of-range condition, raised or not. */
  function OutOfRange(raised: bool): (c: set<Code>)
  {
    if raised then {NumericValueOutOfRange} else {}
  }

  function Clamp(x: int, bound: int): (r: int)
    requires 0 <= bound
    ensures -bound <= r <= bound
    ensures -bound <= x <= bound ==> r == x
    ensures x > bound ==> r == bound
    ensures x < -bound ==> r == -bound
  {
    if x > bound then bound else if x < -bound then -bound else x
  }

  class DataCondition {
    // The bit mask of the source as the set of its bits.
    var mError: set<Code>

    constructor ()
      ensures mError == {}
    {
      mError := {};
    }

    method Raise(code: Code)
      modifies this
      ensures mError == old(mError) + {code}
    {
      mError := mError + {code};
    }

    // Conditions only ever accumulate, and the value ends up in the range.
    method AdjustSIntXRange(val: int, absMaxVal: int) returns (r: int)
      requires 0 <= absMaxVal
      modifies this
      ensures r == Clamp(val, absMaxVal)
      ensures mError == old(mError) + OutOfRange(r != val)
    {
      r := val;
      if val > absMaxVal {
        r := absMaxVal;
        Raise(NumericValueOutOfRange);
      } else if val < -absMaxVal {
        r := -absMaxVal;
        Raise(NumericValueOutOfRange);
      }
    }
  }
}
