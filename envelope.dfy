/** The SasatoRes response envelope: a status, either a payload or error
    details, and metadata whose processing time is filled in by build(). */
module Envelope {
  import opened Wrappers
  import opened ErrorDetail

  /** The version every envelope reports. */
  const ApiVersion: string := "1.0.0"

  /** Nanoseconds per millisecond, the divisor of build(). */
  const NanosPerMilli: Long := 1_000_000

  /** The three values the statusCode string takes. */
  datatype Status = SUCCESS | FAILURE | ERROR
  {
    /** The string getStatusCode() returns. */
    function Name(): string
    {
      match this
      case SUCCESS => "SUCCESS"
      case FAILURE => "FAILURE"
      case ERROR => "ERROR"
    }
  }

  /** Distinct statuses have distinct names, so the string discriminates. */
  lemma StatusNameInjective(a: Status, b: Status)
    ensures a.Name() == b.Name() <==> a == b
  {
  }

  /** PaginationInfo: three numbers stored as given. */
  datatype PaginationInfo = PaginationInfo(totalCount: Long, limit: Int, offset: Int)

  /** `(end - start) / 1_000_000` on Java longs. */
  function ElapsedMillis(startNanos: Long, endNanos: Long): (ms: Long)
    ensures var d := endNanos as int - startNanos as int;
      0 <= d <= LongMax ==> 0 <= ms as int <= d
  {
    LongDiv(LongSub(endNanos, startNanos), NanosPerMilli)
  }

  /** For a clock that has advanced by e nanoseconds (e fitting in a long, and the
      reading possibly wrapped past the top of the long range), build() records
      exactly the whole milliseconds of e. */
  lemma ElapsedMillisOfAdvance(startNanos: Long, e: int)
    requires 0 <= e <= LongMax
    ensures var ms := ElapsedMillis(startNanos, LongWrap(startNanos as int + e)) as int;
      0 <= ms && ms * 1_000_000 <= e < (ms + 1) * 1_000_000
  {
    var endNanos := LongWrap(startNanos as int + e);
    LongSubAfterWrap(startNanos, e);
    LongDivTruncates(LongSub(endNanos, startNanos), NanosPerMilli);
  }

  /** MetaInfo: fixed identification fields and the two fields the factories
      assign after construction. */
  class MetaInfo {
    const requestId: string
    const apiVersion: string
    const timestamp: string
    var processingTimeMs: Long
    var pagination: Option<PaginationInfo>

    /** `new MetaInfo(version)`, with the random id and the formatted clock
        reading supplied by the caller; the other two fields keep Java's
        defaults, 0 and null. */
    constructor(version: string, requestId: string, timestamp: string)
      ensures this.apiVersion == version
      ensures this.requestId == requestId && this.timestamp == timestamp
      ensures processingTimeMs == 0 && pagination == None
    {
      this.requestId := requestId;
      this.apiVersion := version;
      this.timestamp := timestamp;
      processingTimeMs := 0;
      pagination := None;
    }
  }

  /** One response. */
  class SasatoRes<T> {
    const statusCode: Status
    const data: Option<T>
    const error: Option<ErrorDetails>
    const metadata: MetaInfo
    const startNanos: Long

    /** The shape shared by the results of the four static factories (not an
        invariant of the private constructor, which accepts any combination):
        SUCCESS carries no error (its payload may be null), FAILURE and ERROR
        carry an error and no data, only SUCCESS may be paginated, and the
        version is fixed. */
    ghost predicate FactoryShape()
      reads this, metadata
    {
      (statusCode == SUCCESS <==> error.None?)
      && (statusCode != SUCCESS ==> data.None?)
      && (metadata.pagination.Some? ==> statusCode == SUCCESS)
      && metadata.apiVersion == ApiVersion
    }

    /** The private constructor: reads the clock, stores the three parts, and
        creates fresh metadata for version "1.0.0". */
    constructor(statusCode: Status, data: Option<T>, error: Option<ErrorDetails>,
                requestId: string, timestamp: string, startNanos: Long)
      ensures this.statusCode == statusCode && this.data == data && this.error == error
      ensures this.startNanos == startNanos
      ensures fresh(metadata)
      ensures metadata.apiVersion == ApiVersion
      ensures metadata.requestId == requestId && metadata.timestamp == timestamp
      ensures metadata.processingTimeMs == 0 && metadata.pagination == None
    {
      this.startNanos := startNanos;
      this.statusCode := statusCode;
      this.data := data;
      this.error := error;
      this.metadata := new MetaInfo(ApiVersion, requestId, timestamp);
    }

    /** `build()`: record the elapsed whole milliseconds since construction;
        nothing else changes. */
    method Build(endNanos: Long)
      modifies metadata
      ensures metadata.processingTimeMs == ElapsedMillis(startNanos, endNanos)
      ensures metadata.pagination == old(metadata.pagination)
    {
      metadata.processingTimeMs := ElapsedMillis(startNanos, endNanos);
    }

    /** `success(data)`; a null payload is None and passes through. */
    static method Success(data: Option<T>, requestId: string, timestamp: string, startNanos: Long, endNanos: Long)
      returns (res: SasatoRes<T>)
      ensures fresh(res) && fresh(res.metadata) && res.FactoryShape()
      ensures res.statusCode == SUCCESS && res.data == data && res.error == None
      ensures res.metadata.pagination == None
      ensures res.metadata.requestId == requestId && res.metadata.timestamp == timestamp
      ensures res.metadata.processingTimeMs == ElapsedMillis(startNanos, endNanos)
    {
      res := new SasatoRes<T>(SUCCESS, data, None, requestId, timestamp, startNanos);
      res.Build(endNanos);
    }

    /** `success(data, total, limit, offset)`: the pagination numbers are stored
        verbatim, negative ones included. */
    static method SuccessPaged(data: Option<T>, total: Long, limit: Int, offset: Int,
                               requestId: string, timestamp: string, startNanos: Long, endNanos: Long)
      returns (res: SasatoRes<T>)
      ensures fresh(res) && fresh(res.metadata) && res.FactoryShape()
      ensures res.statusCode == SUCCESS && res.data == data && res.error == None
      ensures res.metadata.pagination == Some(PaginationInfo(total, limit, offset))
      ensures res.metadata.requestId == requestId && res.metadata.timestamp == timestamp
      ensures res.metadata.processingTimeMs == ElapsedMillis(startNanos, endNanos)
    {
      res := new SasatoRes<T>(SUCCESS, data, None, requestId, timestamp, startNanos);
      res.metadata.pagination := Some(PaginationInfo(total, limit, offset));
      res.Build(endNanos);
    }

    /** `failure(errorCode, message)`: no throwable and null request details, so
        by ErrorDetail.DebugOnKeepsNulls its gated getters return null even in
        debug mode. */
    static method Failure(errorCode: string, message: string,
                          requestId: string, timestamp: string, startNanos: Long, endNanos: Long)
      returns (res: SasatoRes<T>)
      ensures fresh(res) && fresh(res.metadata) && res.FactoryShape()
      ensures res.statusCode == FAILURE && res.data == None
      ensures res.error == Some(NewErrorDetails(errorCode, message, None, None))
      ensures res.metadata.pagination == None
      ensures res.metadata.requestId == requestId && res.metadata.timestamp == timestamp
      ensures res.metadata.processingTimeMs == ElapsedMillis(startNanos, endNanos)
    {
      var details := NewErrorDetails(errorCode, message, None, None);
      res := new SasatoRes<T>(FAILURE, None, Some(details), requestId, timestamp, startNanos);
      res.Build(endNanos);
    }

    /** `error(errorCode, message, throwable, requestDetails)`, the throwable and
        the details each possibly null. */
    static method Error(errorCode: string, message: string, throwable: Option<Throwable>,
                        requestDetails: Option<string>,
                        requestId: string, timestamp: string, startNanos: Long, endNanos: Long)
      returns (res: SasatoRes<T>)
      ensures fresh(res) && fresh(res.metadata) && res.FactoryShape()
      ensures res.statusCode == ERROR && res.data == None
      ensures res.error == Some(NewErrorDetails(errorCode, message, throwable, requestDetails))
      ensures res.metadata.pagination == None
      ensures res.metadata.requestId == requestId && res.metadata.timestamp == timestamp
      ensures res.metadata.processingTimeMs == ElapsedMillis(startNanos, endNanos)
    {
      var details := NewErrorDetails(errorCode, message, throwable, requestDetails);
      res := new SasatoRes<T>(ERROR, None, Some(details), requestId, timestamp, startNanos);
      res.Build(endNanos);
    }
  }
}
