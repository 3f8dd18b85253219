/**
 * Rendering of a UTC instant as Data Collector local time, to second
 * precision, for the notification texts.
 *
 * Python's `str(datetime.fromtimestamp(...))` is not modelled: it is passed
 * in as `fromTimestamp`, a function from local epoch milliseconds to text.
 */
module LocalTime {

  /** `str(datetime.fromtimestamp(...))`, applied to local epoch milliseconds. */
  type Formatter = int -> string

  /** Length of `YYYY-MM-DD HH:MM:SS`: the `[0:19]` trim drops fractional seconds. */
  const SecondsPrecisionLength: nat := 19

  /**
   * `convert_utc_millis_to_sdc_local_datetime`: shift the UTC instant by the
   * offset, format it, and keep at most the first 19 characters.
   */
  function ConvertUtcMillisToSdcLocalDatetime(utcMillis: int, sdcOffsetMillis: int, fromTimestamp: Formatter): (r: string)
    ensures r <= fromTimestamp(utcMillis + sdcOffsetMillis)
    ensures |r| == if |fromTimestamp(utcMillis + sdcOffsetMillis)| < SecondsPrecisionLength
                   then |fromTimestamp(utcMillis + sdcOffsetMillis)| else SecondsPrecisionLength
  {
    var localDtStr := fromTimestamp(utcMillis + sdcOffsetMillis);
    if |localDtStr| <= SecondsPrecisionLength then localDtStr else localDtStr[..SecondsPrecisionLength]
  }

  /**
   * The rendered text depends on the UTC instant and the offset only through
   * their sum: moving the instant one way and the offset the other way
   * renders the same local time.
   */
  lemma RenderingDependsOnlyOnLocalInstant(u1: int, o1: int, u2: int, o2: int, fromTimestamp: Formatter)
    requires u1 + o1 == u2 + o2
    ensures ConvertUtcMillisToSdcLocalDatetime(u1, o1, fromTimestamp)
         == ConvertUtcMillisToSdcLocalDatetime(u2, o2, fromTimestamp)
  {
  }
}
