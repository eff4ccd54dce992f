// Time stamps with microseconds, after src/common/frame/time_value.{h,cpp}.
module TimeValues {
  import opened Wrappers

  const ONE_SECOND_IN_USECS := 1000000

  datatype RawTime = RawTime(sec: int, usec: int)

  type TimeValue = t: RawTime | 0 <= t.usec < 1000000 witness RawTime(0, 0)

  // The instant or duration a time stamp denotes, in microseconds.
  function Us(t: RawTime): int {
    t.sec * 1000000 + t.usec
  }

  predicate Gt(left: RawTime, right: RawTime) {
    if left.sec == right.sec then left.usec > right.usec else left.sec > right.sec
  }

  // The comparison the timer heap uses. On normal time stamps the field-wise
  // order is the order of the instants.
  predicate Gte(left: TimeValue, right: TimeValue): (r: bool)
    ensures r <==> Us(left) >= Us(right)
  {
    Gt(left, right) || left == right
  }

  lemma UsInjective(a: TimeValue, b: TimeValue)
    requires Us(a) == Us(b)
    ensures a == b
  {
  }

  predicate IsZero(t: TimeValue): (r: bool)
    ensures r <==> Us(t) == 0
  {
    t.sec == 0 && t.usec == 0
  }

  // The expiry of an interval that starts now; both are normal, so the
  // microseconds carry at most once.
  function ExpireTime(now: TimeValue, interval: TimeValue): (r: TimeValue)
    ensures Us(r) == Us(now) + Us(interval)
  {
    RawTime(now.sec + interval.sec + (now.usec + interval.usec) / 1000000,
            (now.usec + interval.usec) % 1000000)
  }

  // The field arithmetic of Normalize after its CHECK. It is right for every
  // pair of fields, negative ones included.
  method NormalizeFields(sec0: int, usec0: int) returns (t: TimeValue)
    ensures Us(t) == sec0 * 1000000 + usec0
  {
    var sec, usec := sec0, usec0;
    if usec >= ONE_SECOND_IN_USECS {
      var nowUsec := usec % ONE_SECOND_IN_USECS;
      var addSec := usec / ONE_SECOND_IN_USECS;
      sec := sec + addSec;
      usec := nowUsec;
    } else if usec <= -ONE_SECOND_IN_USECS {
      var nowUsec := (-usec) % ONE_SECOND_IN_USECS;
      var subSec := (-usec) / ONE_SECOND_IN_USECS;
      sec := sec - subSec;
      usec := -nowUsec;
    }
    if usec < 0 {
      sec := sec - 1;
      usec := usec + ONE_SECOND_IN_USECS;
    }
    t := RawTime(sec, usec);
  }

  // Set, with Normalize's CHECK as the code has it: the product uses the
  // microseconds where the message it logs speaks of the whole time. None is
  // the failed CHECK, which ends the process.
  method Set(sec: int, usec: int) returns (r: Option<TimeValue>)
    ensures r.Some? <==> usec >= 0
    ensures r.Some? ==> Us(r.value) == sec * 1000000 + usec
  {
    if !(usec * ONE_SECOND_IN_USECS + usec >= 0) {
      return None;
    }
    var t := NormalizeFields(sec, usec);
    return Some(t);
  }

  method Add(left: TimeValue, right: TimeValue) returns (r: Option<TimeValue>)
    ensures r.Some? && r.value == ExpireTime(left, right)
  {
    r := Set(left.sec + right.sec, left.usec + right.usec);
    UsInjective(r.value, ExpireTime(left, right));
  }

  // Subtraction is meant to work whenever the difference is not negative, but
  // the misplaced field in CHECK lets it through exactly when no borrow from
  // the seconds is needed.
  method Subtract(left: TimeValue, right: TimeValue) returns (r: Option<TimeValue>)
    ensures r.Some? <==> left.usec >= right.usec
    ensures r.Some? ==> Us(r.value) == Us(left) - Us(right)
  {
    r := Set(left.sec - right.sec, left.usec - right.usec);
  }

}
