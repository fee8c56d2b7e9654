/**
 * Extraction of the position-fix sentence (an NMEA 0183 GGA sentence from a
 * multi-constellation receiver, talker "GN") from one chunk of receiver text,
 * for logging only. The scan is per chunk: nothing is carried between chunks.
 */
module FixExtractor {
  import opened Wrappers
  import opened Text

  /** The sentence marker searched for. */
  const Marker: string := "$GNGGA"

  /** The terminator searched for after the marker. */
  const CarriageReturn: string := "\r"

  /**
   * The fix record of a chunk: from the first marker up to, not including,
   * the first carriage return after it, or to the end of the chunk.
   */
  function ExtractFix(chunk: string): (fix: Option<string>)
    ensures fix.None? <==> forall j: nat :: !OccursAt(chunk, Marker, j)
  {
    match Find(chunk, Marker)
    case None => None
    case Some(start) =>
      var rest := chunk[start..];
      match Find(rest, CarriageReturn)
      case Some(end) => Some(rest[..end])
      case None => Some(rest)
  }

  /**
   * `fix` is the record found at `start`: `start` is the first occurrence of
   * the marker, `fix` is the text of the chunk from there, it holds no
   * carriage return, and it stops at a carriage return or at the end.
   */
  ghost predicate IsFixRecord(chunk: string, start: nat, fix: string) {
    OccursAt(chunk, Marker, start)
    && (forall j :: 0 <= j < start ==> !OccursAt(chunk, Marker, j))
    && start + |fix| <= |chunk|
    && chunk[start..start + |fix|] == fix
    && NoCarriageReturn(fix)
    && (start + |fix| == |chunk| || chunk[start + |fix|] == '\r')
  }

  /** `s` holds no carriage return. */
  predicate NoCarriageReturn(s: string) {
    forall i :: 0 <= i < |s| ==> s[i] != '\r'
  }

  lemma NoCarriageReturnConcat(a: string, b: string)
    requires NoCarriageReturn(a) && NoCarriageReturn(b)
    ensures NoCarriageReturn(a + b)
  {
  }

  /** A carriage return is a one-character occurrence of `CarriageReturn`. */
  lemma CarriageReturnAt(s: string, j: nat)
    ensures OccursAt(s, CarriageReturn, j) <==> j < |s| && s[j] == '\r'
  {
    if j < |s| {
      assert s[j..j + 1] == [s[j]];
    }
  }

  /** When the marker first occurs at `start`, the record extracted is the one found there. */
  lemma {:induction false} ExtractFixFindsRecord(chunk: string, start: nat)
    requires OccursAt(chunk, Marker, start)
    requires forall j :: 0 <= j < start ==> !OccursAt(chunk, Marker, j)
    ensures ExtractFix(chunk).Some?
    ensures IsFixRecord(chunk, start, ExtractFix(chunk).value)
  {
    FindIsFirst(chunk, Marker, start);
    var rest := chunk[start..];
    var fix := ExtractFix(chunk).value;
    match Find(rest, CarriageReturn)
    case Some(end) =>
      assert fix == rest[..end];
      CarriageReturnAt(rest, end);
      forall i | 0 <= i < |fix| ensures fix[i] != '\r' {
        CarriageReturnAt(rest, i);
      }
      assert NoCarriageReturn(fix);
    case None =>
      assert fix == rest;
      forall i | 0 <= i < |fix| ensures fix[i] != '\r' {
        CarriageReturnAt(rest, i);
      }
      assert NoCarriageReturn(fix);
  }

  /** Conversely, a record found at the first marker is exactly what is extracted. */
  lemma {:induction false} RecordIsExtracted(chunk: string, start: nat, fix: string)
    requires IsFixRecord(chunk, start, fix)
    ensures ExtractFix(chunk) == Some(fix)
  {
    ExtractFixFindsRecord(chunk, start);
  }

  /** `f` reads as one sentence: it begins with the marker and holds no carriage return. */
  predicate SentenceShaped(f: string) {
    |Marker| <= |f| && f[..|Marker|] == Marker && NoCarriageReturn(f)
  }

  /**
   * Every extracted record begins with the marker, holds no carriage return
   * and is a contiguous piece of the chunk.
   */
  lemma FixShape(chunk: string)
    requires ExtractFix(chunk).Some?
    ensures var fix := ExtractFix(chunk).value;
      SentenceShaped(fix)
      && exists start: nat :: OccursAt(chunk, fix, start)
  {
    var start := Find(chunk, Marker).value;
    ExtractFixFindsRecord(chunk, start);
    var fix := ExtractFix(chunk).value;
    RecordCoversMarker(chunk, start, fix);
    assert OccursAt(chunk, fix, start);
  }

  /** A record found at a marker runs at least over the whole marker, which holds no carriage return. */
  lemma RecordCoversMarker(chunk: string, start: nat, fix: string)
    requires IsFixRecord(chunk, start, fix)
    ensures |Marker| <= |fix| && fix[..|Marker|] == Marker
  {
    var end := start + |fix|;
    assert chunk[start..start + |Marker|] == Marker;
    assert forall i :: start <= i < start + |Marker| ==> chunk[i] != '\r';
    assert fix[..|Marker|] == chunk[start..end][..|Marker|] == chunk[start..start + |Marker|];
  }

  /** The first sample chunk: the record stops before the carriage return. */
  lemma SampleWithTerminator()
    ensures ExtractFix("junk$GNGGA,1,2,3*4\r\nmore") == Some("$GNGGA,1,2,3*4")
  {
    var chunk := "junk$GNGGA,1,2,3*4\r\nmore";
    var fix := "$GNGGA,1,2,3*4";
    assert chunk[4..10] == Marker;
    forall j | 0 <= j < 4 ensures !OccursAt(chunk, Marker, j) {
      assert chunk[j] != '$';
    }
    assert chunk[4..18] == fix;
    assert chunk[18] == '\r';
    assert NoCarriageReturn(fix);
    assert IsFixRecord(chunk, 4, fix);
    RecordIsExtracted(chunk, 4, fix);
  }

  /** The second sample chunk: without a terminator the record runs to the end. */
  lemma SampleWithoutTerminator()
    ensures ExtractFix("$GNGGA,1,2,3*4") == Some("$GNGGA,1,2,3*4")
  {
    var chunk := "$GNGGA,1,2,3*4";
    assert OccursAt(chunk, Marker, 0);
    RecordIsExtracted(chunk, 0, chunk);
  }

  // The extraction exactly as written: `str::find` reports a BYTE offset into
  // the UTF-8 text, which is then used to skip and take CHARACTERS.

  /** The number of bytes in the UTF-8 encoding of `c`. */
  function Utf8Width(c: char): (w: nat)
    ensures 1 <= w <= 4
    ensures w == 1 <==> c as int < 0x80
  {
    if c as int < 0x80 then 1
    else if c as int < 0x800 then 2
    else if c as int < 0x1_0000 then 3
    else 4
  }

  /** The number of bytes in the UTF-8 encoding of `s`. */
  function Utf8Length(s: string): (n: nat)
    ensures n >= |s|
  {
    if s == [] then 0 else Utf8Width(s[0]) + Utf8Length(s[1..])
  }

  function Min(a: nat, b: nat): nat {
    if a <= b then a else b
  }

  /** Fix extraction as the receiver loop writes it, offsets in bytes used as counts of characters. */
  function ExtractFixAsWritten(chunk: string): (fix: Option<string>)
    ensures fix.None? <==> forall j: nat :: !OccursAt(chunk, Marker, j)
  {
    match Find(chunk, Marker)
    case None => None
    case Some(i) =>
      var start := Utf8Length(chunk[..i]);
      var rest := chunk[Min(start, |chunk|)..];
      match Find(rest, CarriageReturn)
      case Some(j) => Some(rest[..Min(Utf8Length(rest[..j]), |rest|)])
      case None => Some(rest)
  }

  lemma {:induction false} AsciiUtf8Length(s: string)
    requires IsAscii(s)
    ensures Utf8Length(s) == |s|
  {
    if s != [] {
      AsciiUtf8Length(s[1..]);
    }
  }

  /** On ASCII text, byte offsets and character counts coincide and so do the two extractions. */
  lemma AsWrittenAgreesOnAscii(chunk: string)
    requires IsAscii(chunk)
    ensures ExtractFixAsWritten(chunk) == ExtractFix(chunk)
  {
    match Find(chunk, Marker)
    case None =>
    case Some(i) =>
      AsciiUtf8Length(chunk[..i]);
      var rest := chunk[i..];
      match Find(rest, CarriageReturn)
      case Some(j) => AsciiUtf8Length(rest[..j]);
      case None =>
  }

  /** A chunk with one two-byte character before the marker. */
  const AccentedChunk: string := "\U{E9}$GNGGA,1\r"

  /** The intended extraction keeps the marker of `AccentedChunk`. */
  lemma AccentedChunkRecord()
    ensures Find(AccentedChunk, Marker) == Some(1)
    ensures ExtractFix(AccentedChunk) == Some("$GNGGA,1")
  {
    var chunk := AccentedChunk;
    var fix := "$GNGGA,1";
    assert chunk[1..7] == Marker;
    assert !OccursAt(chunk, Marker, 0) by { assert chunk[0] != '$'; }
    FindIsFirst(chunk, Marker, 1);
    assert chunk[1..9] == fix;
    assert chunk[9] == '\r';
    assert NoCarriageReturn(fix);
    assert IsFixRecord(chunk, 1, fix);
    RecordIsExtracted(chunk, 1, fix);
  }

  /** The marker of `AccentedChunk` sits at byte offset 2 of its UTF-8 encoding. */
  lemma AccentedChunkOffset()
    ensures Utf8Length(AccentedChunk[..1]) == 2
  {
    var head := AccentedChunk[..1];
    assert head == ['\U{E9}'];
    assert head[1..] == [];
    assert Utf8Width('\U{E9}') == 2;
  }

  /** The text the code as written scans for a carriage return, and where it finds it. */
  lemma AccentedChunkTail()
    ensures Find(AccentedChunk[2..], CarriageReturn) == Some(7)
    ensures Utf8Length(AccentedChunk[2..][..7]) == 7
    ensures AccentedChunk[2..][..7] == "GNGGA,1"
  {
    var rest := AccentedChunk[2..];
    assert rest == "GNGGA,1\r";
    CarriageReturnAt(rest, 7);
    forall j | 0 <= j < 7 ensures !OccursAt(rest, CarriageReturn, j) {
      CarriageReturnAt(rest, j);
    }
    FindIsFirst(rest, CarriageReturn, 7);
    assert rest[..7] == "GNGGA,1";
    assert IsAscii(rest[..7]);
    AsciiUtf8Length(rest[..7]);
  }

  /**
   * One two-byte character before the marker shifts the cut by one: the
   * record written to the log loses its leading '$' and no longer starts
   * with the marker, whereas the intended record does.
   */
  lemma AsWrittenLosesMarker()
    ensures ExtractFix("\U{E9}$GNGGA,1\r") == Some("$GNGGA,1")
    ensures ExtractFixAsWritten("\U{E9}$GNGGA,1\r") == Some("GNGGA,1")
  {
    AccentedChunkRecord();
    AccentedChunkOffset();
    AccentedChunkTail();
  }
}
