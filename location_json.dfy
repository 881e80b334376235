/**
 * The stored record and its JSON text. `Encode` writes a record the way the
 * serialiser writes `{coords: {lat, lon}, timestamp}` with integer numbers;
 * `Decode` reads exactly such text back. Every other text is treated as
 * unparsable: None stands for the reader's failure path, which evicts it.
 */
module LocationJson {
  import opened Wrappers
  import opened NumberText

  /** A latitude/longitude pair; the cache copies these numbers and never computes with them. */
  datatype Coords = Coords(lat: int, lon: int)

  /** What is kept under the storage key: the coordinates and when they were saved (epoch milliseconds). */
  datatype StoredLocation = StoredLocation(coords: Coords, timestamp: int)

  const LatOpen: string := "{\"coords\":{\"lat\":"
  const LonOpen: string := ",\"lon\":"
  const TimestampOpen: string := "},\"timestamp\":"
  const RecordClose: string := "}"

  /** The JSON text of a record; never the empty (falsy) string. */
  function Encode(r: StoredLocation): (s: string)
    ensures |s| > 0 && s[0] == '{'
  {
    LatOpen + (IntToText(r.coords.lat) + (LonOpen + (IntToText(r.coords.lon)
      + (TimestampOpen + (IntToText(r.timestamp) + RecordClose)))))
  }

  /** The text after `lit` when s starts with it. */
  function StripPrefix(lit: string, s: string): (r: Option<string>)
    ensures r.Some? <==> lit <= s
    ensures r.Some? ==> s == lit + r.value
  {
    if lit <= s then Some(s[|lit|..]) else None
  }

  /**
   * Parses stored text back into a record; None is the failure path of the reader.
   * Only text that opens like an encoded record can be read, so in particular not the empty string.
   */
  function Decode(s: string): (r: Option<StoredLocation>)
    ensures r.Some? ==> LatOpen <= s
  {
    var afterLat :- StripPrefix(LatOpen, s);
    var lat :- ParseInt(afterLat);
    var afterLon :- StripPrefix(LonOpen, lat.1);
    var lon :- ParseInt(afterLon);
    var afterTimestamp :- StripPrefix(TimestampOpen, lon.1);
    var timestamp :- ParseInt(afterTimestamp);
    if timestamp.1 == RecordClose then Some(StoredLocation(Coords(lat.0, lon.0), timestamp.0)) else None
  }

  /** Round trip: what Encode writes, Decode reads back unchanged. */
  lemma {:induction false} DecodeEncode(r: StoredLocation)
    ensures Decode(Encode(r)) == Some(r)
  {
    var tail3 := IntToText(r.timestamp) + RecordClose;
    var tail2 := TimestampOpen + tail3;
    var tail1 := IntToText(r.coords.lon) + tail2;
    var tail0 := LonOpen + tail1;
    var afterLat := IntToText(r.coords.lat) + tail0;
    assert Encode(r) == LatOpen + afterLat;
    assert StripPrefix(LatOpen, Encode(r)) == Some(afterLat);
    ParseIntOfText(r.coords.lat, tail0);
    assert StripPrefix(LonOpen, tail0) == Some(tail1);
    ParseIntOfText(r.coords.lon, tail2);
    assert StripPrefix(TimestampOpen, tail2) == Some(tail3);
    ParseIntOfText(r.timestamp, RecordClose);
  }

  /** Decode accepts nothing but Encode's output: a decoded text is the encoding of its record. */
  lemma {:induction false} EncodeDecode(s: string)
    requires Decode(s).Some?
    ensures s == Encode(Decode(s).value)
  {
    var afterLat := s[|LatOpen|..];
    ParseIntIsInverse(afterLat);
    var lat := ParseInt(afterLat).value;
    var afterLon := lat.1[|LonOpen|..];
    ParseIntIsInverse(afterLon);
    var lon := ParseInt(afterLon).value;
    var afterTimestamp := lon.1[|TimestampOpen|..];
    ParseIntIsInverse(afterTimestamp);
  }

  /** Together: a text decodes to r exactly when it is r's encoding. */
  lemma {:induction false} DecodeIffEncode(s: string, r: StoredLocation)
    ensures Decode(s) == Some(r) <==> s == Encode(r)
  {
    if s == Encode(r) {
      DecodeEncode(r);
    }
    if Decode(s) == Some(r) {
      EncodeDecode(s);
    }
  }

  /** The empty string, which the reader treats as "nothing stored", is not a record. */
  lemma EmptyIsNotARecord()
    ensures Decode("") == None
  {
  }
}
