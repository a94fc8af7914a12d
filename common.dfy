/**
  * Shared vocabulary of the model: optional values and typed outcomes (instead of
  * Java's null and exceptions), the calendar encoding, and java.lang.String.trim.
  */
module Common {

  datatype Option<T> = None | Some(value: T) {
    function GetOr(default: T): T {
      match this
      case Some(v) => v
      case None => default
    }
  }

  /** A call that either returns a value or throws the exception named by `error`. */
  datatype Result<T, E> = Ok(value: T) | Err(error: E)

  // ---------------------------------------------------------------------------
  // Calendar. A LocalDate is a day number, a LocalTime a minute of the day and a
  // LocalDateTime a number of minutes, so that "24 hours before" is arithmetic.
  // ---------------------------------------------------------------------------

  const MinutesPerHour: int := 60
  const MinutesPerDay: int := 1440

  type Day = int
  type TimeOfDay = t: int | 0 <= t < 1440
  type Instant = int

  /** LocalDateTime.of(date, time) */
  function DateTime(d: Day, t: TimeOfDay): (i: Instant)
    ensures DayOf(i) == d
  {
    d * MinutesPerDay + t
  }

  /** LocalDateTime.toLocalDate: the day an instant falls on. */
  function DayOf(i: Instant): (d: Day)
    ensures DateTimeOf(d) <= i < DateTimeOf(d) + MinutesPerDay
  {
    i / MinutesPerDay
  }

  /** The first minute of day `d`. */
  function DateTimeOf(d: Day): Instant {
    d * MinutesPerDay
  }

  /** LocalDateTime.plusHours (minusHours with a negative count). */
  function PlusHours(i: Instant, hours: int): (r: Instant)
    ensures r - i == hours * MinutesPerHour
  {
    i + hours * MinutesPerHour
  }

  // ---------------------------------------------------------------------------
  // java.lang.String.trim: drops every leading and trailing character whose code
  // is at most U+0020.
  // ---------------------------------------------------------------------------

  predicate IsTrimmed(c: char) {
    c <= ' '
  }

  function TrimStart(s: string): (r: string)
    ensures |r| <= |s| && r == s[|s| - |r|..]
    ensures r == [] || !IsTrimmed(r[0])
    ensures forall k :: 0 <= k < |s| - |r| ==> IsTrimmed(s[k])
  {
    if s != [] && IsTrimmed(s[0]) then TrimStart(s[1..]) else s
  }

  function TrimEnd(s: string): (r: string)
    ensures |r| <= |s| && r == s[..|r|]
    ensures r == [] || !IsTrimmed(r[|r| - 1])
    ensures forall k :: |r| <= k < |s| ==> IsTrimmed(s[k])
  {
    if s != [] && IsTrimmed(s[|s| - 1]) then TrimEnd(s[..|s| - 1]) else s
  }

  /** String.trim: drop the trimmed characters at both ends. */
  function Trim(s: string): (r: string)
    ensures |r| <= |s|
    ensures r == [] || (!IsTrimmed(r[0]) && !IsTrimmed(r[|r| - 1]))
  {
    TrimEnd(TrimStart(s))
  }

  /** trim() only removes characters: whatever it returns occurs in `s`. */
  lemma TrimKeepsCharacters(s: string, c: char)
    requires c in Trim(s)
    ensures c in s
  {
    var t := TrimStart(s);
    assert c in t[..|Trim(s)|];
    assert c in s[|s| - |t|..];
  }

  /**
    * trim() returns s[i..j] when every character before i and from j on is
    * trimmed and the slice, if not empty, starts and ends with a kept character.
    */
  lemma TrimIsSlice(s: string, i: nat, j: nat)
    requires i <= j <= |s|
    requires forall k :: 0 <= k < i ==> IsTrimmed(s[k])
    requires forall k :: j <= k < |s| ==> IsTrimmed(s[k])
    requires i < j ==> !IsTrimmed(s[i]) && !IsTrimmed(s[j - 1])
    ensures Trim(s) == s[i..j]
  {
    var t := TrimStart(s);
    if i < j {
      assert |t| == |s| - i;
      var r := TrimEnd(t);
      assert t == s[i..];
      assert t[j - i - 1] == s[j - 1];
      assert |r| == j - i;
      assert r == s[i..j];
    } else {
      assert t == [];
    }
  }

  /** trim() is idempotent. */
  lemma {:induction false} TrimIdempotent(s: string)
    ensures Trim(Trim(s)) == Trim(s)
  {
    var r := Trim(s);
    if r != [] {
      assert TrimStart(r) == r;
      assert TrimEnd(r) == r;
    }
  }
}
