/**
  The ASCII armour of a megolm session-key export: a newline-terminated
  header line, base64 text, and a trailer line. `Locate` is the line scanner
  of `unpackMegolmKeyFile`; it is specified against a declarative reading of
  the text as lines, independent of the scanning order.
 */
module Armor {
  import opened Results
  import opened JsString

  const HeaderLine: string := "-----BEGIN MEGOLM SESSION DATA-----"
  const TrailerLine: string := "-----END MEGOLM SESSION DATA-----"

  datatype ArmorError = HeaderNotFound | TrailerNotFound

  /** The base64 text lies in `[dataStart, dataEnd)` of the armoured file. */
  datatype Region = Region(dataStart: nat, dataEnd: nat)

  /** The decoders applied to the located text: Node's `Buffer` base64 decoder
      (lenient: it skips characters outside the alphabet, so it never fails)
      and `Buffer.toString('ascii')`. Both are left uninterpreted. */
  datatype Codec = Codec(base64Decode: string -> seq<byte>, asciiDecode: seq<byte> -> string)

  /** Position `a` begins a line: it is the start of the text or follows a newline. */
  predicate IsLineStart(s: string, a: nat) {
    a <= |s| && (a == 0 || s[a - 1] == '\n')
  }

  /** Where the line starting at `a` ends: its newline, or the end of the text. */
  function LineEnd(s: string, a: nat): (e: nat)
    requires a <= |s|
    ensures a <= e <= |s|
    ensures e < |s| ==> s[e] == '\n'
    decreases |s| - a
  {
    if a == |s| || s[a] == '\n' then a else LineEnd(s, a + 1)
  }

  /** The line's end is the first newline from `a` on, as `indexOf` finds it. */
  lemma {:induction false} LineEndIsIndexOf(s: string, a: nat)
    requires a <= |s|
    ensures var k := IndexOfChar(s, '\n', a); LineEnd(s, a) == if k < 0 then |s| else k
    decreases |s| - a
  {
    if a < |s| && s[a] != '\n' {
      LineEndIsIndexOf(s, a + 1);
    }
  }

  /** The line starting at `a` passes the test `p`. */
  predicate LineSatisfies(s: string, a: nat, p: string -> bool) {
    IsLineStart(s, a) && p(s[a..LineEnd(s, a)])
  }

  /** The same, and the line is terminated by a newline. */
  predicate TerminatedLineSatisfies(s: string, a: nat, p: string -> bool) {
    LineSatisfies(s, a, p) && LineEnd(s, a) < |s|
  }

  /** The first newline-terminated line passing `p` starts at `h`. */
  predicate FirstTerminatedLine(s: string, h: nat, p: string -> bool) {
    TerminatedLineSatisfies(s, h, p) && forall a :: 0 <= a < h ==> !TerminatedLineSatisfies(s, a, p)
  }

  /** The text after a terminated line begins just past its newline. */
  function DataStart(s: string, h: nat): nat
    requires h <= |s| && LineEnd(s, h) < |s|
  {
    LineEnd(s, h) + 1
  }

  /** The tests `unpackMegolmKeyFile` applies to each line. */
  predicate IsHeaderText(line: string) {
    Trim(line) == HeaderLine
  }

  predicate IsTrailerText(line: string) {
    Trim(line) == TrailerLine
  }

  /** The line starting at `a` runs up to a newline or the end of the text,
      and no other line begins inside it. */
  lemma {:induction false} LineFacts(s: string, a: nat)
    requires a <= |s|
    ensures forall b :: a < b <= LineEnd(s, a) ==> !IsLineStart(s, b)
    decreases |s| - a
  {
    if a < |s| && s[a] != '\n' {
      LineFacts(s, a + 1);
    }
  }

  /** The first loop of `unpackMegolmKeyFile`, from line `lineStart` on: it
      stops at a newline-terminated line passing `p` (the data then starts
      just past that line's newline) and fails when the text runs out
      first. `ScanHeaderMeaning` says which line it stops at. */
  function ScanHeader(s: string, p: string -> bool, lineStart: nat): (r: Result<nat, ArmorError>)
    requires IsLineStart(s, lineStart)
    ensures r.Err? ==> r.error == HeaderNotFound
    ensures r.Ok? ==> lineStart <= r.value && IsLineStart(s, r.value) && LineEnd(s, r.value) < |s|
    decreases |s| - lineStart
  {
    var lineEnd := LineEnd(s, lineStart);
    if lineEnd == |s| then
      Err(HeaderNotFound)
    else if p(s[lineStart..lineEnd]) then
      Ok(lineStart)
    else
      ScanHeader(s, p, lineEnd + 1)
  }

  /** The header scan fails exactly when no newline-terminated line from
      `lineStart` on passes `p`, and otherwise stops at the first one. */
  lemma {:induction false} ScanHeaderMeaning(s: string, p: string -> bool, lineStart: nat)
    requires IsLineStart(s, lineStart)
    ensures var r := ScanHeader(s, p, lineStart);
      && (r.Err? ==> forall a :: lineStart <= a <= |s| ==> !TerminatedLineSatisfies(s, a, p))
      && (r.Ok? ==> && TerminatedLineSatisfies(s, r.value, p)
                    && forall a :: lineStart <= a < r.value ==> !TerminatedLineSatisfies(s, a, p))
    decreases |s| - lineStart
  {
    var lineEnd := LineEnd(s, lineStart);
    LineFacts(s, lineStart);
    if lineEnd < |s| && !p(s[lineStart..lineEnd]) {
      ScanHeaderMeaning(s, p, lineEnd + 1);
    }
  }

  /** The second loop of `unpackMegolmKeyFile`: it stops at the first line
      from `lineStart` on passing `p`, and fails when the text runs out
      first. The last line qualifies even without a newline, because the
      test comes before the end-of-text check. */
  function ScanTrailer(s: string, p: string -> bool, lineStart: nat): (r: Result<nat, ArmorError>)
    requires IsLineStart(s, lineStart)
    ensures r.Err? ==> r.error == TrailerNotFound
    ensures r.Ok? ==> lineStart <= r.value <= |s| && IsLineStart(s, r.value)
    decreases |s| - lineStart
  {
    var lineEnd := LineEnd(s, lineStart);
    if p(s[lineStart..lineEnd]) then
      Ok(lineStart)
    else if lineEnd == |s| then
      Err(TrailerNotFound)
    else
      ScanTrailer(s, p, lineEnd + 1)
  }

  /** The trailer scan fails exactly when no line from `lineStart` on
      passes `p`, and otherwise stops at the first one. */
  lemma {:induction false} ScanTrailerMeaning(s: string, p: string -> bool, lineStart: nat)
    requires IsLineStart(s, lineStart)
    ensures var r := ScanTrailer(s, p, lineStart);
      && (r.Err? ==> forall a :: lineStart <= a <= |s| ==> !LineSatisfies(s, a, p))
      && (r.Ok? ==> && LineSatisfies(s, r.value, p)
                    && forall a :: lineStart <= a < r.value ==> !LineSatisfies(s, a, p))
    decreases |s| - lineStart
  {
    var lineEnd := LineEnd(s, lineStart);
    LineFacts(s, lineStart);
    if !p(s[lineStart..lineEnd]) && lineEnd < |s| {
      ScanTrailerMeaning(s, p, lineEnd + 1);
    }
  }

  /** There is at most one first terminated line passing a test. */
  lemma {:induction false} FirstTerminatedLineUnique(s: string, p: string -> bool, h: nat, h': nat)
    requires FirstTerminatedLine(s, h, p) && FirstTerminatedLine(s, h', p)
    ensures h == h'
  {
  }

  /** Both loops together, for header test `hp` and trailer test `tp`: the
      region runs from just past the header line's newline to the start of
      the trailer line. */
  function LocateBetween(s: string, hp: string -> bool, tp: string -> bool): (r: Result<Region, ArmorError>)
    ensures r.Ok? ==> 0 < r.value.dataStart <= r.value.dataEnd <= |s| && s[r.value.dataStart - 1] == '\n'
  {
    match ScanHeader(s, hp, 0)
    case Err(e) => Err(e)
    case Ok(h) =>
      match ScanTrailer(s, tp, DataStart(s, h))
      case Err(e) => Err(e)
      case Ok(dataEnd) => Ok(Region(DataStart(s, h), dataEnd))
  }

  /** What `LocateBetween` finds, stated over the lines of the text: a
      missing header exactly when no newline-terminated line passes `hp`, a
      missing trailer exactly when no line after the first header passes
      `tp`, and otherwise the text between the first header and the first
      trailer line after it. */
  lemma {:induction false} LocateBetweenMeaning(s: string, hp: string -> bool, tp: string -> bool)
    ensures var r := LocateBetween(s, hp, tp);
      && (r == Err(HeaderNotFound) <==> forall a :: 0 <= a <= |s| ==> !TerminatedLineSatisfies(s, a, hp))
      && (r == Err(TrailerNotFound) <==>
            exists h :: FirstTerminatedLine(s, h, hp) && forall a :: DataStart(s, h) <= a <= |s| ==> !LineSatisfies(s, a, tp))
      && (r.Ok? ==> exists h :: FirstTerminatedLine(s, h, hp) && r.value.dataStart == DataStart(s, h))
      && (r.Ok? ==> && LineSatisfies(s, r.value.dataEnd, tp)
                    && forall a :: r.value.dataStart <= a < r.value.dataEnd ==> !LineSatisfies(s, a, tp))
  {
    ScanHeaderMeaning(s, hp, 0);
    var header := ScanHeader(s, hp, 0);
    if header.Ok? {
      var h := header.value;
      LineFacts(s, h);
      assert FirstTerminatedLine(s, h, hp);
      assert forall h' :: FirstTerminatedLine(s, h', hp) ==> h' == h by {
        forall h' | FirstTerminatedLine(s, h', hp) {
          FirstTerminatedLineUnique(s, hp, h, h');
        }
      }
      ScanTrailerMeaning(s, tp, DataStart(s, h));
    }
  }

  /** The region the two scans delimit. */
  lemma {:induction false} LocateFromScans(s: string, hp: string -> bool, tp: string -> bool, h: nat, dataEnd: nat)
    requires ScanHeader(s, hp, 0) == Ok(h)
    requires IsLineStart(s, DataStart(s, h)) && ScanTrailer(s, tp, DataStart(s, h)) == Ok(dataEnd)
    ensures LocateBetween(s, hp, tp) == Ok(Region(DataStart(s, h), dataEnd))
  {
  }

  /** The line scanner of `unpackMegolmKeyFile`: each line is trimmed and
      then compared with the header and trailer markers. */
  function Locate(s: string): (r: Result<Region, ArmorError>)
    ensures r.Ok? ==> 0 < r.value.dataStart <= r.value.dataEnd <= |s| && s[r.value.dataStart - 1] == '\n'
  {
    LocateBetween(s, IsHeaderText, IsTrailerText)
  }

  /** `Locate` reports a missing header exactly when no newline-terminated
      line trims to the header, and a missing trailer exactly when no line
      from the first header's end on trims to the trailer. Otherwise the
      region runs from just after the first header's newline to the start
      of the first trailer line after it, so it keeps the newline that
      precedes the trailer. */
  lemma {:induction false} LocateMeaning(s: string)
    ensures var r := Locate(s);
      && (r == Err(HeaderNotFound) <==> forall a :: 0 <= a <= |s| ==> !TerminatedLineSatisfies(s, a, IsHeaderText))
      && (r == Err(TrailerNotFound) <==>
            exists h :: && FirstTerminatedLine(s, h, IsHeaderText)
                        && forall a :: DataStart(s, h) <= a <= |s| ==> !LineSatisfies(s, a, IsTrailerText))
      && (r.Ok? ==> exists h :: FirstTerminatedLine(s, h, IsHeaderText) && r.value.dataStart == DataStart(s, h))
      && (r.Ok? ==> && LineSatisfies(s, r.value.dataEnd, IsTrailerText)
                    && forall a :: r.value.dataStart <= a < r.value.dataEnd ==> !LineSatisfies(s, a, IsTrailerText))
  {
    LocateBetweenMeaning(s, IsHeaderText, IsTrailerText);
  }

  /** `unpackMegolmKeyFile` as the utility it is based on has it: the
      located text, base64-decoded to bytes. */
  function Unpack(s: string, codec: Codec): (r: Result<seq<byte>, ArmorError>)
    ensures r.Err? <==> Locate(s).Err?
    ensures r.Err? ==> r.error == Locate(s).error
    ensures r.Ok? ==> var g := Locate(s).value; r.value == codec.base64Decode(s[g.dataStart..g.dataEnd])
  {
    var g :- Locate(s);
    Ok(codec.base64Decode(s[g.dataStart..g.dataEnd]))
  }

  /** `unpackMegolmKeyFile` as written in this repository: the decoded bytes
      are turned back into a string with `toString('ascii')`. */
  function UnpackAsWritten(s: string, codec: Codec): (r: Result<string, ArmorError>)
    ensures r.Err? <==> Locate(s).Err?
    ensures r.Err? ==> r.error == Locate(s).error
    ensures r.Ok? ==> r.value == codec.asciiDecode(Unpack(s, codec).value)
  {
    var bytes :- Unpack(s, codec);
    Ok(codec.asciiDecode(bytes))
  }

  // ---------------------------------------------------------------------
  // The armour the exporter writes, and the scanner reading it back.

  /** Base64 lines, each followed by a newline. */
  function Body(lines: seq<string>): string {
    if lines == [] then "" else lines[0] + "\n" + Body(lines[1..])
  }

  /** An armoured export: header line, body lines, trailer line. */
  function Pack(lines: seq<string>): string {
    HeaderLine + "\n" + Body(lines) + TrailerLine + "\n"
  }

  /** Lines that can be framed: no newline inside, and none passing the
      trailer test `tp`. */
  predicate FramableLines(lines: seq<string>, tp: string -> bool) {
    forall i :: 0 <= i < |lines| ==> '\n' !in lines[i] && !tp(lines[i])
  }

  /** A line holding exactly `t` from `a` on ends right after it. */
  lemma {:induction false} LineEndAt(s: string, a: nat, t: string)
    requires a + |t| <= |s| && s[a..a + |t|] == t && '\n' !in t
    requires a + |t| == |s| || s[a + |t|] == '\n'
    ensures LineEnd(s, a) == a + |t|
    decreases |t|
  {
    if t != [] {
      assert s[a] == t[0];
      assert s[a + 1..a + 1 + |t[1..]|] == t[1..];
      LineEndAt(s, a + 1, t[1..]);
    }
  }

  /** A marker that begins and ends with a dash trims to itself. */
  lemma {:induction false} DashedTrimsToItself(m: string)
    requires |m| > 0 && m[0] == '-' && m[|m| - 1] == '-'
    ensures Trim(m) == m
  {
    assert [] + m + [] == m;
    TrimOfPadded([], m, []);
  }

  lemma {:induction false} HeaderIsHeaderText()
    ensures IsHeaderText(HeaderLine)
  {
    DashedTrimsToItself(HeaderLine);
  }

  lemma {:induction false} TrailerIsTrailerText()
    ensures IsTrailerText(TrailerLine)
  {
    DashedTrimsToItself(TrailerLine);
  }

  lemma {:induction false} MarkersHaveNoNewline()
    ensures '\n' !in HeaderLine && '\n' !in TrailerLine
  {
  }

  /** A text opening with a line `h` passing `hp` has its header found at once. */
  lemma {:induction false} HeaderOpensText(s: string, hp: string -> bool, h: string)
    requires hp(h) && '\n' !in h
    requires |h| < |s| && s[..|h|] == h && s[|h|] == '\n'
    ensures ScanHeader(s, hp, 0) == Ok(0)
    ensures DataStart(s, 0) == |h| + 1
  {
    LineEndAt(s, 0, h);
  }

  /** A line `t` starting at `a` that passes `tp`, followed by a newline or
      by the end of the text, stops the trailer scan there. */
  lemma {:induction false} TrailerAt(s: string, tp: string -> bool, a: nat, t: string)
    requires IsLineStart(s, a)
    requires tp(t) && '\n' !in t
    requires s[a..] == t || s[a..] == t + "\n"
    ensures ScanTrailer(s, tp, a) == Ok(a)
  {
    assert s[a..a + |t|] == t;
    LineEndAt(s, a, t);
  }

  /** Reading a line off the text that remains from `a`. */
  lemma {:induction false} SplitAtNewline(s: string, a: nat, x: string, y: string)
    requires a <= |s| && s[a..] == x + "\n" + y
    ensures a + |x| < |s| && s[a..a + |x|] == x && s[a + |x|] == '\n' && s[a + |x| + 1..] == y
  {
    assert s[a..][..|x|] == x;
    assert s[a..][|x| + 1..] == y;
  }

  /** From `a` on, `s` holds the body lines, each with its newline, and
      then the line `t` (followed by a newline or the end of the text). */
  predicate LinesFrom(s: string, a: nat, lines: seq<string>, t: string)
    decreases |lines|
  {
    if lines == [] then
      a + |t| <= |s| && s[a..a + |t|] == t && (a + |t| == |s| || s[a + |t|] == '\n')
    else
      && a + |lines[0]| < |s| && s[a..a + |lines[0]|] == lines[0] && s[a + |lines[0]|] == '\n'
      && LinesFrom(s, a + |lines[0]| + 1, lines[1..], t)
  }

  /** A text holding the body and then the line `t` from `a` on reads as
      those lines. */
  lemma {:induction false} BodyReadsAsLines(s: string, a: nat, lines: seq<string>, t: string)
    requires a <= |s| && s[a..] == Body(lines) + t + "\n"
    ensures LinesFrom(s, a, lines, t)
    decreases |lines|
  {
    if lines == [] {
      assert s[a..] == t + "\n";
      assert s[a..][..|t|] == t;
    } else {
      var rest := Body(lines[1..]) + t + "\n";
      assert s[a..] == lines[0] + "\n" + rest;
      SplitAtNewline(s, a, lines[0], rest);
      BodyReadsAsLines(s, a + |lines[0]| + 1, lines[1..], t);
    }
  }

  /** The number of characters the body lines take, newlines included. */
  function BodySize(lines: seq<string>): nat {
    if lines == [] then 0 else |lines[0]| + 1 + BodySize(lines[1..])
  }

  lemma {:induction false} BodySizeIsLength(lines: seq<string>)
    ensures |Body(lines)| == BodySize(lines)
  {
    if lines != [] {
      BodySizeIsLength(lines[1..]);
    }
  }

  /** Every line from `a` up to the line start `b` fails `tp`. */
  predicate NoLinePassesBetween(s: string, tp: string -> bool, a: nat, b: nat)
    decreases b - a
  {
    && a <= b <= |s|
    && (a == b || (LineEnd(s, a) < b && !tp(s[a..LineEnd(s, a)]) && NoLinePassesBetween(s, tp, LineEnd(s, a) + 1, b)))
  }

  /** The trailer scan passes over lines failing its test. */
  lemma {:induction false} ScanTrailerPasses(s: string, tp: string -> bool, a: nat, b: nat)
    requires IsLineStart(s, a) && NoLinePassesBetween(s, tp, a, b)
    ensures IsLineStart(s, b)
    ensures ScanTrailer(s, tp, a) == ScanTrailer(s, tp, b)
    decreases b - a
  {
    if a < b {
      ScanTrailerPasses(s, tp, LineEnd(s, a) + 1, b);
    }
  }

  lemma {:induction false} FramableTail(lines: seq<string>, tp: string -> bool)
    requires lines != [] && FramableLines(lines, tp)
    ensures '\n' !in lines[0] && !tp(lines[0]) && FramableLines(lines[1..], tp)
  {
    assert forall i :: 0 <= i < |lines| - 1 ==> lines[1..][i] == lines[i + 1];
  }

  /** No body line passes the trailer test, and the trailer line follows them. */
  lemma {:induction false} BodyLinesFail(s: string, tp: string -> bool, a: nat, lines: seq<string>, t: string)
    requires LinesFrom(s, a, lines, t) && FramableLines(lines, tp)
    ensures a + BodySize(lines) <= |s| && NoLinePassesBetween(s, tp, a, a + BodySize(lines))
    ensures LinesFrom(s, a + BodySize(lines), [], t)
    decreases |lines|
  {
    if lines != [] {
      FramableTail(lines, tp);
      LineEndAt(s, a, lines[0]);
      BodyLinesFail(s, tp, a + |lines[0]| + 1, lines[1..], t);
    }
  }

  /** The trailer line `t` stops the scan where it starts. */
  lemma {:induction false} TrailerLineStops(s: string, tp: string -> bool, a: nat, t: string)
    requires IsLineStart(s, a) && LinesFrom(s, a, [], t)
    requires tp(t) && '\n' !in t
    ensures ScanTrailer(s, tp, a) == Ok(a)
  {
    LineEndAt(s, a, t);
  }

  /** From any line of the body, the trailer scan stops at the trailer line `t`. */
  lemma {:induction false} ScanTrailerOverBody(s: string, tp: string -> bool, a: nat, lines: seq<string>, t: string)
    requires IsLineStart(s, a)
    requires tp(t) && '\n' !in t
    requires LinesFrom(s, a, lines, t)
    requires FramableLines(lines, tp)
    ensures ScanTrailer(s, tp, a) == Ok(a + BodySize(lines))
  {
    BodyLinesFail(s, tp, a, lines, t);
    ScanTrailerPasses(s, tp, a, a + BodySize(lines));
    TrailerLineStops(s, tp, a + BodySize(lines), t);
  }

  /** A text made of a header line `h`, the body lines and a trailer line
      `t` is located between them. */
  lemma {:induction false} LocateBetweenLines(s: string, hp: string -> bool, tp: string -> bool, h: string, lines: seq<string>, t: string)
    requires hp(h) && '\n' !in h
    requires tp(t) && '\n' !in t
    requires FramableLines(lines, tp)
    requires |h| < |s| && s[..|h|] == h && s[|h|] == '\n'
    requires LinesFrom(s, |h| + 1, lines, t)
    ensures LocateBetween(s, hp, tp) == Ok(Region(|h| + 1, |h| + 1 + BodySize(lines)))
  {
    HeaderOpensText(s, hp, h);
    ScanTrailerOverBody(s, tp, |h| + 1, lines, t);
    LocateFromScans(s, hp, tp, 0, |h| + 1 + BodySize(lines));
  }

  /** The framed text, read as lines. */
  lemma {:induction false} FramedText(h: string, lines: seq<string>, t: string)
    ensures var s := h + "\n" + Body(lines) + t + "\n";
      && |h| < |s| && s[..|h|] == h && s[|h|] == '\n'
      && LinesFrom(s, |h| + 1, lines, t)
      && s[|h| + 1..|h| + 1 + |Body(lines)|] == Body(lines)
  {
    var s := h + "\n" + Body(lines) + t + "\n";
    var rest := Body(lines) + t + "\n";
    assert s == h + "\n" + rest;
    SplitAtNewline(s, 0, h, rest);
    BodyReadsAsLines(s, |h| + 1, lines, t);
    assert s[|h| + 1..][..|Body(lines)|] == Body(lines);
  }

  /** Framing body lines between a line `h` passing the header test and a
      line `t` passing the trailer test, then locating, finds exactly the
      body lines. */
  lemma {:induction false} LocateBetweenFramed(hp: string -> bool, tp: string -> bool, h: string, lines: seq<string>, t: string)
    requires hp(h) && '\n' !in h
    requires tp(t) && '\n' !in t
    requires FramableLines(lines, tp)
    ensures var s := h + "\n" + Body(lines) + t + "\n";
      && LocateBetween(s, hp, tp) == Ok(Region(|h| + 1, |h| + 1 + |Body(lines)|))
      && s[|h| + 1..|h| + 1 + |Body(lines)|] == Body(lines)
  {
    FramedText(h, lines, t);
    BodySizeIsLength(lines);
    LocateBetweenLines(h + "\n" + Body(lines) + t + "\n", hp, tp, h, lines, t);
  }

  /** The exporter's armour is read back: the region is exactly the body lines. */
  lemma {:induction false} PackLocate(lines: seq<string>)
    requires FramableLines(lines, IsTrailerText)
    ensures var s := Pack(lines);
      && Locate(s) == Ok(Region(|HeaderLine| + 1, |HeaderLine| + 1 + |Body(lines)|))
      && s[|HeaderLine| + 1..|HeaderLine| + 1 + |Body(lines)|] == Body(lines)
  {
    HeaderIsHeaderText();
    TrailerIsTrailerText();
    MarkersHaveNoNewline();
    LocateBetweenFramed(IsHeaderText, IsTrailerText, HeaderLine, lines, TrailerLine);
  }

  /** A header on the last line, with no newline after it, is not found. */
  lemma {:induction false} HeaderNeedsNewline(s: string, hp: string -> bool, tp: string -> bool)
    requires '\n' !in s
    ensures LocateBetween(s, hp, tp) == Err(HeaderNotFound)
  {
    LineEndAt(s, 0, s);
  }

  /** A trailer on the last line needs no newline, and a trailer directly
      after the header leaves an empty region. */
  lemma {:induction false} TrailerMayEndText(hp: string -> bool, tp: string -> bool, h: string, t: string)
    requires hp(h) && '\n' !in h
    requires tp(t) && '\n' !in t
    ensures LocateBetween(h + "\n" + t, hp, tp) == Ok(Region(|h| + 1, |h| + 1))
  {
    var s := h + "\n" + t;
    SplitAtNewline(s, 0, h, t);
    HeaderOpensText(s, hp, h);
    TrailerAt(s, tp, |h| + 1, t);
    LocateFromScans(s, hp, tp, 0, |h| + 1);
  }

  /** The same for the markers `unpackMegolmKeyFile` looks for. */
  lemma {:induction false} MarkersAlone()
    ensures Locate(HeaderLine + "\n" + TrailerLine) == Ok(Region(|HeaderLine| + 1, |HeaderLine| + 1))
    ensures Locate(HeaderLine) == Err(HeaderNotFound)
  {
    HeaderIsHeaderText();
    TrailerIsTrailerText();
    MarkersHaveNoNewline();
    TrailerMayEndText(IsHeaderText, IsTrailerText, HeaderLine, TrailerLine);
    HeaderNeedsNewline(HeaderLine, IsHeaderText, IsTrailerText);
  }
}
