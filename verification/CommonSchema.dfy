/** The common schema: the format-neutral description of structured data. */
module CommonSchema {
  import opened Json
  import Decimal

  datatype CommonType =
    | Null | Boolean | Int32 | Int64 | Float32 | Float64 | String | ByteArray
    | Object | Map | Array | Union
    | Timestamp | Date | TimeOfDay | UUID | Decimal | BigDecimal | Any
    | Unknown

  datatype TimeUnit = Seconds | Millis | Micros | Nanos

  /** A time type's resolution and whether it is adjusted to UTC. */
  datatype TimeParams = TimeParams(unit: TimeUnit, adjustToUTC: bool)

  /** The parameters of logical types. */
  datatype Logical = Logical(
    decimal: Option<Decimal.Params>,
    timestamp: Option<TimeParams>,
    timeOfDay: Option<TimeParams>)

  datatype Common = Common(
    typ: CommonType,
    name: string,
    optional: bool,
    logical: Option<Logical>,
    children: seq<Common>)
  {
    /** The parameters a decimal is declared with. */
    function DecimalParams(): Option<Decimal.Params> {
      if logical.Some? then logical.value.decimal else None
    }

    function TimeOfDayParams(): Option<TimeParams> {
      if logical.Some? then logical.value.timeOfDay else None
    }

    /** Timestamps without parameters count milliseconds in UTC. */
    function EffectiveTimestamp(): TimeParams {
      if logical.Some? && logical.value.timestamp.Some? then logical.value.timestamp.value else TimeParams(Millis, true)
    }
  }

  /** Position i holds the last child of that name. */
  predicate LastNamed(children: seq<Common>, k: string, i: nat) {
    i < |children| && children[i].name == k && forall j :: i < j < |children| ==> children[j].name != k
  }

  /** One more child taken from a list of children. */
  lemma PrefixStep(children: seq<Common>, i: nat)
    requires i < |children|
    ensures children[..i + 1] != [] && children[..i + 1][i] == children[i]
    ensures children[..i + 1][..i] == children[..i]
  {
  }
}
