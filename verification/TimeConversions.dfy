/** Durations in microseconds and time points in nanoseconds since the epoch, and their protobuf
    messages of seconds and nanoseconds.

    Counts are unbounded here.  `NoOverflow` lemmas show that every intermediate value of a 64-bit
    count fits the types the code uses, and `ReadFits` predicates say for which messages reading
    does; for the others the code's signed arithmetic overflows, which is undefined. */
module TimeConversions {

  const MICROS_PER_SECOND := 1_000_000
  const NANOS_PER_MICRO := 1_000
  const NANOS_PER_SECOND := 1_000_000_000

  predicate IsInt64(x: int) {
    -0x8000_0000_0000_0000 <= x < 0x8000_0000_0000_0000
  }

  predicate IsInt32(x: int) {
    -0x8000_0000 <= x < 0x8000_0000
  }

  /** `duration_cast` to a coarser unit: division that drops the fraction. */
  function Truncate(x: int, unit: int): int
    requires unit > 0
  {
    if x >= 0 then x / unit else -(-x / unit)
  }

  /** The protobuf messages `Duration` and `Timestamp`. */
  datatype SecondsNanos = SecondsNanos(seconds: int, nanos: int)

  /** The time a message stands for, in nanoseconds. */
  function Total(p: SecondsNanos): int {
    p.seconds * NANOS_PER_SECOND + p.nanos
  }

  /** Less than a second of nanoseconds, and no disagreement of sign with the seconds. */
  predicate IsNormal(p: SecondsNanos) {
    && -NANOS_PER_SECOND < p.nanos < NANOS_PER_SECOND
    && (p.seconds > 0 ==> p.nanos >= 0)
    && (p.seconds < 0 ==> p.nanos <= 0)
  }

  predicate Before(p: SecondsNanos, q: SecondsNanos) {
    p.seconds < q.seconds || (p.seconds == q.seconds && p.nanos < q.nanos)
  }

  // ----- durations

  function DurationToProto(micros: int): SecondsNanos {
    var seconds := Truncate(micros, MICROS_PER_SECOND);
    SecondsNanos(seconds, (micros - seconds * MICROS_PER_SECOND) * NANOS_PER_MICRO)
  }

  /** Microseconds of the nanoseconds part, rounded away from zero. */
  function NanosToMicros(nanos: int): int {
    var micros := Truncate(nanos, NANOS_PER_MICRO);
    if nanos < 0 && micros * NANOS_PER_MICRO > nanos then micros - 1
    else if nanos > 0 && micros * NANOS_PER_MICRO < nanos then micros + 1
    else micros
  }

  function DurationFromProto(p: SecondsNanos): int {
    p.seconds * MICROS_PER_SECOND + NanosToMicros(p.nanos)
  }

  /** The message stands for exactly the duration and is normal. */
  lemma DurationToProtoMeaning(micros: int)
    ensures Total(DurationToProto(micros)) == micros * NANOS_PER_MICRO
    ensures DurationToProto(micros).seconds * 1_000_000_000 + DurationToProto(micros).nanos == micros * 1_000
    ensures IsNormal(DurationToProto(micros))
    ensures DurationToProto(micros).nanos % NANOS_PER_MICRO == 0
  {
  }

  lemma DurationOrder(micros: int, micros': int)
    ensures micros < micros' <==> Before(DurationToProto(micros), DurationToProto(micros'))
  {
  }

  /** `micros` is the first whole microsecond from `nanos` away from zero. */
  predicate RoundsAway(nanos: int, micros: int) {
    if nanos >= 0 then nanos <= micros * NANOS_PER_MICRO < nanos + NANOS_PER_MICRO
    else nanos - NANOS_PER_MICRO < micros * NANOS_PER_MICRO <= nanos
  }

  /** The nanoseconds part points away from zero as the whole time does. */
  predicate PointsAway(p: SecondsNanos) {
    p.nanos % NANOS_PER_MICRO == 0 || (p.nanos > 0 <==> Total(p) > 0)
  }

  /** Reading a message rounds its time away from zero exactly when there is nothing to round or
      the nanoseconds part points away from zero; normal messages always do. */
  lemma DurationRoundsAwayIff(p: SecondsNanos)
    ensures RoundsAway(Total(p), DurationFromProto(p)) <==> PointsAway(p)
    ensures IsNormal(p) ==> PointsAway(p)
  {
  }

  /** Reading is monotone on the messages it rounds away from zero. */
  lemma DurationFromProtoMonotone(p: SecondsNanos, q: SecondsNanos)
    requires PointsAway(p) && PointsAway(q) && Total(p) <= Total(q)
    ensures DurationFromProto(p) <= DurationFromProto(q)
  {
  }

  lemma DurationRoundTrip(micros: int)
    ensures DurationFromProto(DurationToProto(micros)) == micros
  {
  }

  /** Every intermediate value of reading a message fits 64 bits. */
  predicate DurationReadFits(p: SecondsNanos) {
    IsInt64(p.seconds * MICROS_PER_SECOND) && IsInt64(NanosToMicros(p.nanos)) && IsInt64(DurationFromProto(p))
  }

  /** A message can be read, and survives being read and written, exactly when it is normal, whole
      microseconds, and those fit 64 bits. */
  lemma DurationMessageRoundTrip(p: SecondsNanos)
    ensures DurationToProto(DurationFromProto(p)) == p <==> IsNormal(p) && p.nanos % NANOS_PER_MICRO == 0
    ensures DurationReadFits(p) && DurationToProto(DurationFromProto(p)) == p <==>
      IsNormal(p) && p.nanos % NANOS_PER_MICRO == 0 && IsInt64(DurationFromProto(p))
  {
  }

  /** What protobuf allows in a `Duration`: about ten thousand years either way. */
  predicate IsProtobufDuration(p: SecondsNanos) {
    IsNormal(p) && -315_576_000_000 <= p.seconds <= 315_576_000_000
  }

  /** Reading never overflows on a message that protobuf allows. */
  lemma ProtobufDurationFits(p: SecondsNanos)
    requires IsProtobufDuration(p)
    ensures DurationReadFits(p)
  {
  }

  /** No intermediate value of either direction leaves its type for a 64-bit count. */
  lemma DurationNoOverflow(micros: int)
    requires IsInt64(micros)
    ensures var p := DurationToProto(micros);
      && IsInt64(p.seconds) && IsInt64(p.seconds * MICROS_PER_SECOND) && IsInt64(micros - p.seconds * MICROS_PER_SECOND)
      && IsInt32(p.nanos) && IsInt64(NanosToMicros(p.nanos)) && IsInt64(DurationFromProto(p))
  {
  }

  // ----- time points

  function TimestampToProto(nanos: int): SecondsNanos {
    var seconds := Truncate(nanos, NANOS_PER_SECOND);
    SecondsNanos(seconds, nanos - seconds * NANOS_PER_SECOND)
  }

  function TimestampFromProto(p: SecondsNanos): int {
    p.seconds * NANOS_PER_SECOND + p.nanos
  }

  lemma TimestampRoundTrip(nanos: int)
    ensures TimestampFromProto(TimestampToProto(nanos)) == nanos
    ensures IsNormal(TimestampToProto(nanos))
  {
  }

  /** Reading gives the time that any message stands for, normal or not, and the message that is
      written stands for the time. */
  lemma TimestampMeaning(p: SecondsNanos, nanos: int)
    ensures TimestampFromProto(p) == p.seconds * 1_000_000_000 + p.nanos == Total(p)
    ensures TimestampToProto(nanos).seconds * 1_000_000_000 + TimestampToProto(nanos).nanos == nanos
  {
  }

  /** On the messages that protobuf allows reading keeps the order, strictly. */
  lemma TimestampFromProtoMonotone(p: SecondsNanos, q: SecondsNanos)
    requires IsProtobufTimestamp(p) && IsProtobufTimestamp(q)
    ensures TimestampFromProto(p) < TimestampFromProto(q) <==> Before(p, q)
    ensures TimestampFromProto(p) == TimestampFromProto(q) <==> p == q
  {
  }

  /** Every intermediate value of reading a message fits 64 bits. */
  predicate TimestampReadFits(p: SecondsNanos) {
    IsInt64(p.seconds * NANOS_PER_SECOND) && IsInt64(TimestampFromProto(p))
  }

  /** The first and the last time that can be read, to the nanosecond: in the years 1677 and 2262. */
  lemma TimestampReadFitsIff(p: SecondsNanos)
    requires -NANOS_PER_SECOND < p.nanos < NANOS_PER_SECOND
    ensures TimestampReadFits(p) <==>
      && -9_223_372_036 <= p.seconds <= 9_223_372_036
      && (p.seconds == 9_223_372_036 ==> p.nanos <= 854_775_807)
      && (p.seconds == -9_223_372_036 ==> p.nanos >= -854_775_808)
  {
  }

  /** A message can be read, and survives being read and written, exactly when it is normal and its
      time fits 64 bits. */
  lemma TimestampMessageRoundTrip(p: SecondsNanos)
    ensures TimestampReadFits(p) && TimestampToProto(TimestampFromProto(p)) == p <==> IsNormal(p) && IsInt64(Total(p))
  {
  }

  /** What protobuf allows in a `Timestamp`: the years 1 to 9999, nanoseconds counted forwards. */
  predicate IsProtobufTimestamp(p: SecondsNanos) {
    -62_135_596_800 <= p.seconds <= 253_402_300_799 && 0 <= p.nanos < NANOS_PER_SECOND
  }

  /** Of the messages that protobuf allows, exactly those from the first to the last readable time are
      read without overflow; so the last second of the year 9999, though allowed, is not. */
  lemma ProtobufTimestampFitsIff(p: SecondsNanos)
    requires IsProtobufTimestamp(p)
    ensures TimestampReadFits(p) <==>
      && -9_223_372_036 <= p.seconds
      && (p.seconds < 9_223_372_036 || (p.seconds == 9_223_372_036 && p.nanos <= 854_775_807))
    ensures var last := SecondsNanos(253_402_300_799, 0); IsProtobufTimestamp(last) && !TimestampReadFits(last)
  {
  }

  /** Protobuf wants a timestamp's nanoseconds counted forwards from its second, before the epoch
      too.  The written message meets this exactly for times since the epoch and for whole seconds
      before it. */
  lemma TimestampIsForwardIff(nanos: int)
    ensures 0 <= TimestampToProto(nanos).nanos < NANOS_PER_SECOND <==> nanos >= 0 || nanos % NANOS_PER_SECOND == 0
  {
  }

  lemma TimestampNoOverflow(nanos: int)
    requires IsInt64(nanos)
    ensures var p := TimestampToProto(nanos);
      IsInt64(p.seconds) && IsInt64(p.seconds * NANOS_PER_SECOND) && IsInt32(p.nanos)
  {
  }
}
