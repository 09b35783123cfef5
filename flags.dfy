/**
 * The two command-line flag types of utils/flags.go: a repeatable flag that
 * collects trimmed strings, and a TCP/UDP port number flag.
 */
module Flags {
  import opened Base
  import opened Text

  /** stringSliceFlag: every occurrence of the flag adds one value. */
  class StringSliceFlag {
    var value: seq<string>

    constructor (initial: seq<string>)
      ensures value == initial
    {
      value := initial;
    }

    /** The values joined with ","; one value is shown as it is, none as "". */
    function String(): (s: string)
      reads this
      ensures value == [] ==> s == ""
      ensures |value| == 1 ==> s == value[0]
    {
      Join(value, ",")
    }

    /**
     * Set never fails: it appends the value without its surrounding white
     * space and keeps every earlier value, so the text form grows by a ","
     * and the trimmed value.
     */
    method Set(v: string) returns (err: Option<Error>)
      modifies this
      ensures err == None
      ensures value == old(value) + [TrimSpace(v)]
      ensures String() == if old(value) == [] then TrimSpace(v) else old(String()) + "," + TrimSpace(v)
    {
      if value != [] {
        JoinSnoc(value, TrimSpace(v), ",");
      }
      value := value + [TrimSpace(v)];
      return None;
    }
  }

  const PortRangeError := Message("Port must be in range 1-65535")

  /**
   * What portFlag.Set does with its text: the Atoi error when the text is no
   * integer, the range error when the integer is not a port, the port
   * otherwise.
   */
  function ParsePort(s: string): (r: Result<uint16, Error>)
    ensures r.Ok? ==> 1 <= r.value && Atoi(s) == Ok(r.value as int)
    ensures Atoi(s).Err? ==> r == Err(Atoi(s).error)
    ensures Atoi(s).Ok? && (Atoi(s).value < 1 || 65535 < Atoi(s).value) ==> r == Err(PortRangeError)
  {
    match Atoi(s)
    case Err(e) => Err(e)
    case Ok(port) =>
      if port < 1 || port > 65535 then Err(PortRangeError)
      else Ok(port as uint16)
  }

  /**
   * The texts accepted as a port, without reference to Atoi: an optional
   * '+', then decimal digits (leading zeros allowed) whose value lies in
   * 1..65535. A '-' sign is never accepted.
   */
  lemma ParsePortAccepts(s: string)
    ensures ParsePort(s).Ok? <==>
      && s != [] && s[0] != '-'
      && Unsigned(s) != [] && AllDigits(Unsigned(s))
      && 1 <= DigitsValue(Unsigned(s)) <= 65535
    ensures ParsePort(s).Ok? ==> ParsePort(s).value as int == DigitsValue(Unsigned(s))
  {
    if Unsigned(s) != [] && AllDigits(Unsigned(s)) {
      var d: int := DigitsValue(Unsigned(s));
      if s[0] == '-' {
        assert SignedValue(s) == -d;
      } else {
        assert SignedValue(s) == d;
      }
    }
  }

  /** Itoa of every port reads back as that port. */
  lemma {:induction false} PortRoundTrip(v: uint16)
    requires 1 <= v
    ensures ParsePort(Decimal(v as nat)) == Ok(v)
  {
    AtoiDecimal(v as nat);
  }

  /** portFlag: a port number, changed only by a successful Set. */
  class PortFlag {
    var value: uint16

    constructor (initial: uint16)
      ensures value == initial
    {
      value := initial;
    }

    /** The value in decimal, which reads back as the value. */
    function String(): (s: string)
      reads this
      ensures AllDigits(s) && DigitsValue(s) == value as nat
    {
      DecimalValue(value as nat);
      Decimal(value as nat)
    }

    /**
     * On an Atoi failure or a value outside 1..65535 the error is returned
     * and the value kept; otherwise the value becomes the parsed port.
     */
    method Set(s: string) returns (err: Option<Error>)
      modifies this
      ensures ParsePort(s).Ok? ==> err == None && value == ParsePort(s).value
      ensures ParsePort(s).Err? ==> err == Some(ParsePort(s).error) && value == old(value)
    {
      var parsed := Atoi(s);
      if parsed.Err? {
        return Some(parsed.error);
      }
      var port := parsed.value;
      if port < 1 || port > 65535 {
        return Some(PortRangeError);
      }
      value := port as uint16;
      return None;
    }
  }
}
