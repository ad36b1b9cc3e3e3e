/**
 * The domain-list parser shared by every rule kind (`Rule.addDomains`).
 *
 * The parser scans the UTF-8 bytes of a separator-delimited domain list once.
 * Every separator byte, and the final byte of the string whatever it is, is a
 * boundary; the bytes since the previous boundary form one segment.  A segment
 * that starts with `~` is a restricted domain and loses the `~`; any other
 * segment is a permitted domain.  A segment holding a byte above 127 is
 * replaced by its IDNA (punycode) encoding.  Too short and `/.../`-shaped
 * segments make the call throw, after the segments before them were stored.
 *
 * Domains are kept as byte sequences: the source slices the string at byte
 * offsets, and every offset it slices at is 0, the end, or next to an ASCII
 * separator or `~`, so every slice falls on a character boundary.
 */
module DomainList {
  import opened Wrappers

  type Byte = bv8
  type Domain = seq<Byte>

  const TILDE: Byte := 0x7E
  const SLASH: Byte := 0x2F

  /** The two ways `addDomains` throws (`SyntaxError.invalidModifier`). */
  datatype DomainError =
    | TooShortDomain   // "Empty or too short domain specified"
    | RegexDomain      // "Using regular expression for domain modifier is not supported"

  /** One accepted segment: where it goes and the domain that is stored. */
  datatype Segment = Segment(restricted: bool, domain: Domain)

  /** What one call appends to the two lists, and whether it threw. */
  datatype Parsed = Parsed(permitted: seq<Domain>, restricted: seq<Domain>, error: Option<DomainError>)

  // ---------------------------------------------------------------------------
  // Splitting into segments
  // ---------------------------------------------------------------------------

  /**
   * The raw segments of `s`, scanning at index `i` inside a segment that began
   * at `start`, as the source's byte loop sees them.  The last index is always
   * a boundary and the segment it ends runs to the end of the string, so a
   * trailing separator byte stays in the last segment; every other separator
   * ends the segment before it.
   */
  function Split(s: seq<Byte>, sep: Byte, start: nat, i: nat): (ps: seq<seq<Byte>>)
    requires start <= i <= |s|
    ensures start < |s| <==> |ps| > 0
    decreases |s| - i
  {
    if i == |s| then (if start == i then [] else [s[start..]])
    else if i == |s| - 1 then [s[start..]]
    else if s[i] == sep then [s[start..i]] + Split(s, sep, i + 1, i + 1)
    else Split(s, sep, start, i + 1)
  }

  /** The raw segments of the whole string. */
  function Pieces(s: seq<Byte>, sep: Byte): seq<seq<Byte>> {
    Split(s, sep, 0, 0)
  }

  /** The segments put back together with the separator between them. */
  function JoinPieces(ps: seq<seq<Byte>>, sep: Byte): seq<Byte>
    decreases |ps|
  {
    if |ps| == 0 then []
    else if |ps| == 1 then ps[0]
    else ps[0] + [sep] + JoinPieces(ps[1..], sep)
  }

  /** The number of indices `k` in `[lo, hi)` with `s[k] == b`. */
  function CountIn(s: seq<Byte>, b: Byte, lo: nat, hi: nat): nat
    requires lo <= hi <= |s|
    decreases hi - lo
  {
    if lo == hi then 0 else (if s[lo] == b then 1 else 0) + CountIn(s, b, lo + 1, hi)
  }

  // ---------------------------------------------------------------------------
  // One segment
  // ---------------------------------------------------------------------------

  /** True when some byte of `s` is above 127 (see `NonAsciiMeans`), checked from the last byte back. */
  predicate HasNonAscii(s: seq<Byte>)
    decreases |s|
  {
    |s| > 0 && (s[|s| - 1] > 127 || HasNonAscii(s[..|s| - 1]))
  }

  /** `HasNonAscii` holds exactly when some byte is above 127. */
  lemma {:induction false} NonAsciiMeans(s: seq<Byte>)
    ensures HasNonAscii(s) <==> exists k :: 0 <= k < |s| && s[k] > 127
    decreases |s|
  {
    if |s| > 0 {
      var init := s[..|s| - 1];
      NonAsciiMeans(init);
      if HasNonAscii(init) {
        var k :| 0 <= k < |init| && init[k] > 127;
        assert s[k] == init[k];
      }
      if exists k :: 0 <= k < |s| && s[k] > 127 {
        var k :| 0 <= k < |s| && s[k] > 127;
        if k < |s| - 1 {
          assert init[k] == s[k];
        }
      }
    }
  }

  /** True when `d` starts and ends with `/` (a one-byte "/" counts as both). */
  predicate IsRegexShaped(d: Domain) {
    |d| > 0 && d[0] == SLASH && d[|d| - 1] == SLASH
  }

  /**
   * The value `i - previousSeparator` that the source compares with 2 at the
   * boundary that ends `piece`.  For the last segment the boundary is its own
   * final byte, so the measure is one less than the segment's length.
   */
  function Measure(piece: seq<Byte>, isLast: bool): int {
    if isLast then |piece| - 1 else |piece|
  }

  /** The segment without its leading `~`, if it has one (needs a non-empty piece). */
  function Body(piece: seq<Byte>): seq<Byte>
    requires |piece| > 0
  {
    if piece[0] == TILDE then piece[1..] else piece
  }

  /**
   * The stored domain of a segment long enough to pass the length test: its
   * body as sliced, or the IDNA encoding of the body when a byte above 127 was
   * seen before the boundary.
   */
  function StoredDomain(piece: seq<Byte>, isLast: bool, idna: seq<Byte> -> seq<Byte>): Domain
    requires Measure(piece, isLast) > 2
  {
    if HasNonAscii(piece[..Measure(piece, isLast)]) then idna(Body(piece)) else Body(piece)
  }

  /** What the loop does at the boundary that ends `piece` (Rule.swift:42-75). */
  function ParsePiece(piece: seq<Byte>, isLast: bool, idna: seq<Byte> -> seq<Byte>): Result<Segment, DomainError>
  {
    if Measure(piece, isLast) <= 2 then Failure(TooShortDomain)
    else
      var domain := StoredDomain(piece, isLast, idna);
      if IsRegexShaped(domain) then Failure(RegexDomain)
      else Success(Segment(piece[0] == TILDE, domain))
  }

  // ---------------------------------------------------------------------------
  // The whole list
  // ---------------------------------------------------------------------------

  /** `seg` stored in front of what the rest of the scan stores. */
  function Prepend(seg: Segment, rest: Parsed): Parsed {
    if seg.restricted then rest.(restricted := [seg.domain] + rest.restricted)
    else rest.(permitted := [seg.domain] + rest.permitted)
  }

  /** One boundary: a rejected segment ends the scan, an accepted one is stored in front of the rest. */
  function Step(here: Result<Segment, DomainError>, rest: Parsed): Parsed {
    match here
    case Failure(e) => Parsed([], [], Some(e))
    case Success(seg) => Prepend(seg, rest)
  }

  /** Segments processed in order until the first one that throws. */
  function ScanPieces(ps: seq<seq<Byte>>, idna: seq<Byte> -> seq<Byte>): Parsed
    decreases |ps|
  {
    if |ps| == 0 then Parsed([], [], None)
    else Step(ParsePiece(ps[0], |ps| == 1, idna), ScanPieces(ps[1..], idna))
  }

  /** What one call of `addDomains(domainsStr, separator)` appends, and whether it throws. */
  function ParseDomains(s: seq<Byte>, sep: Byte, idna: seq<Byte> -> seq<Byte>): Parsed {
    ScanPieces(Pieces(s, sep), idna)
  }

  /**
   * The domains that the first `k` segments of `ps` route to the list
   * `restricted` selects, in order (rejected segments contribute nothing).
   */
  function Routed(ps: seq<seq<Byte>>, k: nat, restricted: bool, idna: seq<Byte> -> seq<Byte>): seq<Domain>
    requires k <= |ps|
    decreases k
  {
    if k == 0 then []
    else
      var here := match ParsePiece(ps[0], |ps| == 1, idna)
        case Success(seg) => if seg.restricted == restricted then [seg.domain] else []
        case Failure(_) => [];
      here + Routed(ps[1..], k - 1, restricted, idna)
  }

  /** True when the segment at index `k` of `ps` is accepted. */
  predicate PieceOk(ps: seq<seq<Byte>>, k: nat, idna: seq<Byte> -> seq<Byte>)
    requires k < |ps|
  {
    ParsePiece(ps[k], k == |ps| - 1, idna).Success?
  }

  // ---------------------------------------------------------------------------
  // Properties of the segmentation
  // ---------------------------------------------------------------------------

  /** The segments and the separators between them give back the whole string. */
  lemma {:induction false} PiecesJoin(s: seq<Byte>, sep: Byte)
    ensures JoinPieces(Pieces(s, sep), sep) == s
  {
    SplitJoin(s, sep, 0, 0);
  }

  /** From a segment start on, the segments joined give back the rest of the string. */
  lemma {:induction false} SplitJoin(s: seq<Byte>, sep: Byte, start: nat, i: nat)
    requires start <= i <= |s|
    ensures JoinPieces(Split(s, sep, start, i), sep) == s[start..]
    decreases |s| - i
  {
    if i < |s| - 1 {
      if s[i] == sep {
        SplitJoin(s, sep, i + 1, i + 1);
        JoinCons(s[start..i], Split(s, sep, i + 1, i + 1), sep);
        assert s[start..] == s[start..i] + [sep] + s[i + 1..];
      } else {
        SplitJoin(s, sep, start, i + 1);
      }
    }
  }

  /** Joining a segment in front of at least one more. */
  lemma JoinCons(a: seq<Byte>, rest: seq<seq<Byte>>, sep: Byte)
    requires |rest| > 0
    ensures JoinPieces([a] + rest, sep) == a + [sep] + JoinPieces(rest, sep)
  {
    assert ([a] + rest)[1..] == rest;
  }

  /**
   * No segment but the last contains the separator, and the last is non-empty
   * and contains it at most as its final byte.
   */
  lemma {:induction false} PiecesSeparatorFree(s: seq<Byte>, sep: Byte)
    ensures var ps := Pieces(s, sep);
      (forall k :: 0 <= k < |ps| - 1 ==> sep !in ps[k]) &&
      (|ps| > 0 ==> |ps[|ps| - 1]| > 0 && sep !in ps[|ps| - 1][..|ps[|ps| - 1]| - 1])
  {
    SplitSeparatorFree(s, sep, 0, 0);
  }

  lemma {:induction false} SplitSeparatorFree(s: seq<Byte>, sep: Byte, start: nat, i: nat)
    requires start <= i <= |s|
    requires start == |s| ==> i == start
    requires forall k :: start <= k < i ==> s[k] != sep && k != |s| - 1
    ensures var ps := Split(s, sep, start, i);
      (forall k :: 0 <= k < |ps| - 1 ==> sep !in ps[k]) &&
      (|ps| > 0 ==> |ps[|ps| - 1]| > 0 && sep !in ps[|ps| - 1][..|ps[|ps| - 1]| - 1])
    decreases |s| - i
  {
    if i == |s| - 1 {
      var last := s[start..];
      assert last[..|last| - 1] == s[start..i];
      assert forall x :: 0 <= x < i - start ==> s[start..i][x] == s[start + x];
    } else if i < |s| - 1 {
      if s[i] == sep {
        SplitSeparatorFree(s, sep, i + 1, i + 1);
        var rest := Split(s, sep, i + 1, i + 1);
        var ps := [s[start..i]] + rest;
        assert forall x :: 0 <= x < i - start ==> s[start..i][x] == s[start + x];
        assert forall k :: 1 <= k < |ps| ==> ps[k] == rest[k - 1];
      } else {
        SplitSeparatorFree(s, sep, start, i + 1);
      }
    }
  }

  /** There is one segment more than there are separators before the final byte. */
  lemma {:induction false} PiecesCount(s: seq<Byte>, sep: Byte)
    requires |s| > 0
    ensures |Pieces(s, sep)| == CountIn(s, sep, 0, |s| - 1) + 1
  {
    SplitCount(s, sep, 0, 0);
  }

  lemma {:induction false} SplitCount(s: seq<Byte>, sep: Byte, start: nat, i: nat)
    requires start <= i < |s|
    ensures |Split(s, sep, start, i)| == CountIn(s, sep, i, |s| - 1) + 1
    decreases |s| - i
  {
    if i < |s| - 1 {
      if s[i] == sep {
        SplitCount(s, sep, i + 1, i + 1);
      } else {
        SplitCount(s, sep, start, i + 1);
      }
    }
  }

  /**
   * When the final byte is the separator it is not a segment of its own: it is
   * the last byte of the last segment.
   */
  lemma TrailingSeparatorKept(s: seq<Byte>, sep: Byte)
    requires |s| > 0 && s[|s| - 1] == sep
    ensures var ps := Pieces(s, sep);
      |ps| > 0 && |ps[|ps| - 1]| > 0 && ps[|ps| - 1][|ps[|ps| - 1]| - 1] == sep
  {
    SplitEndsString(s, sep, 0, 0);
  }

  /** The last segment is non-empty and ends with the final byte of the string. */
  lemma {:induction false} SplitEndsString(s: seq<Byte>, sep: Byte, start: nat, i: nat)
    requires start <= i < |s|
    ensures var ps := Split(s, sep, start, i);
      |ps[|ps| - 1]| > 0 && ps[|ps| - 1][|ps[|ps| - 1]| - 1] == s[|s| - 1]
    decreases |s| - i
  {
    if i < |s| - 1 {
      if s[i] == sep {
        SplitEndsString(s, sep, i + 1, i + 1);
        var rest := Split(s, sep, i + 1, i + 1);
        var ps := Split(s, sep, start, i);
        assert ps == [s[start..i]] + rest;
        assert ps[|ps| - 1] == rest[|rest| - 1];
      } else {
        SplitEndsString(s, sep, start, i + 1);
        assert Split(s, sep, start, i) == Split(s, sep, start, i + 1);
      }
    } else {
      assert Split(s, sep, start, i) == [s[start..]];
    }
  }

  // ---------------------------------------------------------------------------
  // Properties of one segment
  // ---------------------------------------------------------------------------

  /**
   * A segment throws "too short" exactly when the boundary measure is at most
   * 2.  The measure counts a leading `~`: the test runs before it is removed.
   */
  lemma TooShortIff(piece: seq<Byte>, isLast: bool, idna: seq<Byte> -> seq<Byte>)
    ensures ParsePiece(piece, isLast, idna) == Failure(TooShortDomain) <==> Measure(piece, isLast) <= 2
  {
  }

  /**
   * A segment long enough is accepted unless its stored domain starts and ends
   * with `/`; on acceptance it is restricted exactly when it starts with `~`,
   * and then the stored domain is the rest of the segment.
   */
  lemma AcceptedSegment(piece: seq<Byte>, isLast: bool, idna: seq<Byte> -> seq<Byte>)
    requires Measure(piece, isLast) > 2
    ensures var r := ParsePiece(piece, isLast, idna);
      (r == Failure(RegexDomain) <==> IsRegexShaped(StoredDomain(piece, isLast, idna))) &&
      (r.Success? ==> r.value.restricted == (piece[0] == TILDE) &&
                      r.value.domain == StoredDomain(piece, isLast, idna))
  {
  }

  /**
   * A segment with no byte above 127 before its boundary is stored byte for
   * byte as sliced (without the `~`); otherwise its IDNA encoding is stored.
   */
  lemma StoredVerbatimIffAscii(piece: seq<Byte>, isLast: bool, idna: seq<Byte> -> seq<Byte>)
    requires Measure(piece, isLast) > 2
    ensures var m := Measure(piece, isLast);
      (!HasNonAscii(piece[..m]) ==>
        StoredDomain(piece, isLast, idna) == (if piece[0] == TILDE then piece[1..] else piece)) &&
      (HasNonAscii(piece[..m]) ==>
        StoredDomain(piece, isLast, idna) == idna(if piece[0] == TILDE then piece[1..] else piece))
  {
  }

  // ---------------------------------------------------------------------------
  // Properties of the whole scan
  // ---------------------------------------------------------------------------

  /** The scan throws exactly when some segment is rejected. */
  lemma {:induction false} ScanSucceedsIff(ps: seq<seq<Byte>>, idna: seq<Byte> -> seq<Byte>)
    ensures ScanPieces(ps, idna).error.None? <==> forall k :: 0 <= k < |ps| ==> PieceOk(ps, k, idna)
    decreases |ps|
  {
    if |ps| > 0 {
      ScanSucceedsIff(ps[1..], idna);
      forall k | 1 <= k < |ps|
        ensures PieceOk(ps, k, idna) == PieceOk(ps[1..], k - 1, idna)
      {
        assert ps[1..][k - 1] == ps[k];
      }
      if PieceOk(ps, 0, idna) {
        assert forall k :: 0 <= k < |ps[1..]| ==> PieceOk(ps, k + 1, idna) == PieceOk(ps[1..], k, idna);
      }
    }
  }

  /**
   * A scan stores, into each list, the accepted segments routed to it, in
   * encounter order, up to the first rejected segment (whose error it reports);
   * the segments before a throw stay stored.
   */
  lemma {:induction false} ScanStoresPrefix(ps: seq<seq<Byte>>, k: nat, idna: seq<Byte> -> seq<Byte>)
    requires k <= |ps|
    requires forall i :: 0 <= i < k ==> PieceOk(ps, i, idna)
    requires k < |ps| ==> !PieceOk(ps, k, idna)
    ensures var r := ScanPieces(ps, idna);
      r.permitted == Routed(ps, k, false, idna) &&
      r.restricted == Routed(ps, k, true, idna) &&
      r.error == (if k == |ps| then None else Some(ParsePiece(ps[k], k == |ps| - 1, idna).error))
    decreases |ps|
  {
    if k > 0 {
      var tail := ps[1..];
      forall i | 0 <= i < k - 1
        ensures PieceOk(tail, i, idna)
      {
        assert PieceOk(ps, i + 1, idna);
        assert tail[i] == ps[i + 1];
      }
      if k < |ps| {
        assert tail[k - 1] == ps[k];
        assert !PieceOk(tail, k - 1, idna);
      }
      ScanStoresPrefix(tail, k - 1, idna);
      assert PieceOk(ps, 0, idna);
      var seg := ParsePiece(ps[0], |ps| == 1, idna).value;
      var rest := ScanPieces(tail, idna);
      assert ScanPieces(ps, idna) == Prepend(seg, rest);
      assert Routed(ps, k, false, idna) == (if seg.restricted then [] else [seg.domain]) + rest.permitted;
      assert Routed(ps, k, true, idna) == (if seg.restricted then [seg.domain] else []) + rest.restricted;
    }
  }

  /** On success a call stores exactly one domain per separator before the final byte, plus one. */
  lemma {:induction false} SuccessCount(s: seq<Byte>, sep: Byte, idna: seq<Byte> -> seq<Byte>)
    requires |s| > 0
    requires ParseDomains(s, sep, idna).error.None?
    ensures var r := ParseDomains(s, sep, idna);
      |r.permitted| + |r.restricted| == CountIn(s, sep, 0, |s| - 1) + 1
  {
    PiecesCount(s, sep);
    ScanCount(Pieces(s, sep), idna);
  }

  /** A successful scan stores one domain per segment. */
  lemma {:induction false} ScanCount(ps: seq<seq<Byte>>, idna: seq<Byte> -> seq<Byte>)
    requires ScanPieces(ps, idna).error.None?
    ensures |ScanPieces(ps, idna).permitted| + |ScanPieces(ps, idna).restricted| == |ps|
    decreases |ps|
  {
    if |ps| > 0 {
      ScanCount(ps[1..], idna);
    }
  }

  // ---------------------------------------------------------------------------
  // Examples, with `|` (0x7C) as the separator
  // ---------------------------------------------------------------------------

  const PIPE: Byte := 0x7C

  /** `~e` throws "too short": the final segment's measure is 1 (NetworkRuleTests.swift:306). */
  lemma TildeLetterTooShort(idna: seq<Byte> -> seq<Byte>)
    ensures ParseDomains([TILDE, 0x65], PIPE, idna) == Parsed([], [], Some(TooShortDomain))
  {
    var s: seq<Byte> := [TILDE, 0x65];
    assert Pieces(s, PIPE) == Split(s, PIPE, 0, 1) == [s];
    assert Measure(s, true) == 1;
  }

  /**
   * `~~abc` is accepted and restricted, but only one `~` is removed: the
   * stored domain is `~abc`.
   */
  lemma DoubleTildeKeepsOne(idna: seq<Byte> -> seq<Byte>)
    ensures ParseDomains([TILDE, TILDE, 0x61, 0x62, 0x63], PIPE, idna) ==
      Parsed([], [[TILDE, 0x61, 0x62, 0x63]], None)
  {
    var s: seq<Byte> := [TILDE, TILDE, 0x61, 0x62, 0x63];
    assert s[0..] == s;
    assert s[0] != PIPE && s[1] != PIPE && s[2] != PIPE && s[3] != PIPE;
    assert Split(s, PIPE, 0, 0) == Split(s, PIPE, 0, 2) == Split(s, PIPE, 0, 4) == [s];
    AsciiExample(s[..4]);
    assert s[1..] == [TILDE, 0x61, 0x62, 0x63];
    assert ParsePiece(s, true, idna) == Success(Segment(true, s[1..]));
    assert ScanPieces([s], idna) == Prepend(Segment(true, s[1..]), ScanPieces([], idna));
  }

  /** `a.co|~b.co` permits `a.co` and restricts `b.co` (NetworkRuleTests.swift:170-174, shortened). */
  lemma PermittedAndRestricted(idna: seq<Byte> -> seq<Byte>)
    ensures var s: seq<Byte> := [0x61, 0x2E, 0x63, 0x6F, PIPE, TILDE, 0x62, 0x2E, 0x63, 0x6F];
      ParseDomains(s, PIPE, idna) == Parsed([[0x61, 0x2E, 0x63, 0x6F]], [[0x62, 0x2E, 0x63, 0x6F]], None)
  {
    var first: seq<Byte> := [0x61, 0x2E, 0x63, 0x6F];
    var second: seq<Byte> := [TILDE, 0x62, 0x2E, 0x63, 0x6F];
    var s := first + [PIPE] + second;
    SplitExample(s, first, second);
    AsciiExample(first[..4]);
    AsciiExample(second[..4]);
    assert second[1..] == [0x62, 0x2E, 0x63, 0x6F];
    assert ParsePiece(first, false, idna) == Success(Segment(false, first));
    assert ParsePiece(second, true, idna) == Success(Segment(true, second[1..]));
    assert ScanPieces([second], idna) == Prepend(Segment(true, second[1..]), ScanPieces([], idna));
    assert [first, second][1..] == [second];
    assert ScanPieces([first, second], idna) == Prepend(Segment(false, first), ScanPieces([second], idna));
    assert s == [0x61, 0x2E, 0x63, 0x6F, PIPE, TILDE, 0x62, 0x2E, 0x63, 0x6F];
  }

  /** In `a.co|/bc/` the regex-shaped segment throws after `a.co` was stored (NetworkRuleTests.swift:310, shortened). */
  lemma RegexAfterStored(idna: seq<Byte> -> seq<Byte>)
    ensures var s: seq<Byte> := [0x61, 0x2E, 0x63, 0x6F, PIPE, SLASH, 0x62, 0x63, SLASH];
      ParseDomains(s, PIPE, idna) == Parsed([[0x61, 0x2E, 0x63, 0x6F]], [], Some(RegexDomain))
  {
    var first: seq<Byte> := [0x61, 0x2E, 0x63, 0x6F];
    var second: seq<Byte> := [SLASH, 0x62, 0x63, SLASH];
    var s := first + [PIPE] + second;
    SplitExample(s, first, second);
    AsciiExample(first[..4]);
    AsciiExample(second[..3]);
    assert ParsePiece(first, false, idna) == Success(Segment(false, first));
    assert ParsePiece(second, true, idna) == Failure(RegexDomain);
    assert ScanPieces([second], idna) == Parsed([], [], Some(RegexDomain));
    assert [first, second][1..] == [second];
    assert ScanPieces([first, second], idna) == Prepend(Segment(false, first), ScanPieces([second], idna));
    assert s == [0x61, 0x2E, 0x63, 0x6F, PIPE, SLASH, 0x62, 0x63, SLASH];
  }

  /** A four-byte segment, the separator and a segment of four or five bytes split into those two segments. */
  lemma SplitExample(s: seq<Byte>, first: seq<Byte>, second: seq<Byte>)
    requires |first| == 4 && 4 <= |second| <= 5 && s == first + [PIPE] + second
    requires forall k :: 0 <= k < |first| ==> first[k] != PIPE
    requires forall k :: 0 <= k < |second| ==> second[k] != PIPE
    ensures Pieces(s, PIPE) == [first, second]
  {
    assert s[5..] == second;
    assert s[..4] == first;
    assert s[5] != PIPE && s[6] != PIPE && s[7] != PIPE && s[8] != PIPE;
    assert Split(s, PIPE, 5, 5) == Split(s, PIPE, 5, 7) == Split(s, PIPE, 5, 8);
    assert Split(s, PIPE, 5, 8) == [second];
    assert s[0] != PIPE && s[1] != PIPE && s[2] != PIPE && s[3] != PIPE;
    assert Split(s, PIPE, 0, 0) == Split(s, PIPE, 0, 2) == Split(s, PIPE, 0, 4) == [first, second];
  }

  /** A segment of bytes at most 127 holds no non-ASCII byte. */
  lemma AsciiExample(s: seq<Byte>)
    requires forall k :: 0 <= k < |s| ==> s[k] <= 127
    ensures !HasNonAscii(s)
  {
    NonAsciiMeans(s);
  }

  // ---------------------------------------------------------------------------
  // The rule object whose lists the parser fills
  // ---------------------------------------------------------------------------

  /** The part of the source's `Rule` base class that the parser touches. */
  class Rule {
    const ruleText: string
    var isWhiteList: bool
    var isImportant: bool
    var isScript: bool
    var isScriptlet: bool
    var permittedDomains: seq<Domain>
    var restrictedDomains: seq<Domain>

    constructor (ruleText: string)
      ensures this.ruleText == ruleText
      ensures !isWhiteList && !isImportant && !isScript && !isScriptlet
      ensures permittedDomains == [] && restrictedDomains == []
    {
      this.ruleText := ruleText;
      isWhiteList, isImportant := false, false;
      isScript, isScriptlet := false, false;
      permittedDomains, restrictedDomains := [], [];
    }

    /**
     * Parses `domainsStr` and appends its domains to the two lists; it never
     * clears them, so repeated calls accumulate.  A throw is the returned
     * error; the domains stored before it remain.
     */
    method AddDomains(domainsStr: seq<Byte>, separator: Byte, idna: seq<Byte> -> seq<Byte>)
      returns (error: Option<DomainError>)
      requires |domainsStr| > 0
      modifies this`permittedDomains, this`restrictedDomains
      ensures var r := ParseDomains(domainsStr, separator, idna);
        permittedDomains == old(permittedDomains) + r.permitted &&
        restrictedDomains == old(restrictedDomains) + r.restricted &&
        error == r.error
    {
      var s := domainsStr;
      var maxIndex := |s| - 1;
      var previousSeparator := 0;
      var nonAsciiFound := false;
      ghost var whole := ScanFrom(s, separator, 0, 0, idna);
      ghost var donePermitted: seq<Domain> := [];
      ghost var doneRestricted: seq<Domain> := [];
      ghost var permitted0, restricted0 := permittedDomains, restrictedDomains;

      for i := 0 to maxIndex + 1
        invariant previousSeparator <= i
        invariant nonAsciiFound == HasNonAscii(s[previousSeparator..i])
        invariant permittedDomains == permitted0 + donePermitted
        invariant restrictedDomains == restricted0 + doneRestricted
        invariant whole == Glue(donePermitted, doneRestricted, ScanFrom(s, separator, previousSeparator, i, idna))
      {
        var c := s[i];
        if c == separator || i == maxIndex {
          var parsed := ParseSegmentAt(s, previousSeparator, i, nonAsciiFound, idna);
          ghost var rest := ScanFrom(s, separator, i + 1, i + 1, idna);
          assert ScanFrom(s, separator, previousSeparator, i, idna) == Step(parsed, rest);
          if parsed.Failure? {
            GlueEnd(donePermitted, doneRestricted, Some(parsed.error));
            ScanFromPieces(s, separator, 0, 0, idna);
            return Some(parsed.error);
          }
          var domain := parsed.value.domain;
          GlueStep(donePermitted, doneRestricted, parsed.value, rest);
          if parsed.value.restricted {
            restrictedDomains := restrictedDomains + [domain];
            doneRestricted := doneRestricted + [domain];
          } else {
            permittedDomains := permittedDomains + [domain];
            donePermitted := donePermitted + [domain];
          }

          previousSeparator := i + 1;
          nonAsciiFound := false;
        } else {
          if c > 127 {
            nonAsciiFound := true;
          }
          NonAsciiSnoc(s, previousSeparator, i);
        }
      }
      GlueEnd(donePermitted, doneRestricted, None);
      ScanFromPieces(s, separator, 0, 0, idna);
      return None;
    }
  }

  /** The raw segment that the boundary `i` ends: up to the separator, or to the end when `i` is the last index. */
  function PieceEndingAt(s: seq<Byte>, start: nat, i: nat): seq<Byte>
    requires start <= i < |s|
  {
    if i == |s| - 1 then s[start..] else s[start..i]
  }

  /** The measure, the first byte and the stored domain of the piece that ends at `i`, read off `s`. */
  lemma PieceBy(s: seq<Byte>, start: nat, i: nat, idna: seq<Byte> -> seq<Byte>)
    requires start <= i < |s|
    ensures var isLast := i == |s| - 1;
      var piece := if isLast then s[start..] else s[start..i];
      Measure(piece, isLast) == i - start &&
      (i - start > 2 ==>
        piece[0] == s[start] &&
        var from := if s[start] == TILDE then start + 1 else start;
        var body := s[from..if isLast then |s| else i];
        StoredDomain(piece, isLast, idna) == if HasNonAscii(s[start..i]) then idna(body) else body)
  {
    var isLast := i == |s| - 1;
    var end := if isLast then |s| else i;
    var piece := if isLast then s[start..] else s[start..i];
    assert piece == s[start..end];
    if i - start > 2 {
      var from := if s[start] == TILDE then start + 1 else start;
      var body := s[from..end];
      assert piece[..i - start] == s[start..i];
      assert Body(piece) == body by {
        if s[start] == TILDE {
          assert piece[1..] == body;
        }
      }
    }
  }

  /**
   * The body of the source's loop at a boundary `i` for the segment that began
   * at `start` (Rule.swift:42-75), with the flag the loop keeps for bytes above 127.
   */
  method ParseSegmentAt(s: seq<Byte>, start: nat, i: nat, nonAsciiFound: bool,
                        idna: seq<Byte> -> seq<Byte>) returns (r: Result<Segment, DomainError>)
    requires start <= i < |s|
    requires nonAsciiFound == HasNonAscii(s[start..i])
    ensures r == ParsePiece(PieceEndingAt(s, start, i), i == |s| - 1, idna)
  {
    PieceBy(s, start, i, idna);
    var maxIndex := |s| - 1;
    if i - start <= 2 {
      return Failure(TooShortDomain);
    }
    var restricted := s[start] == TILDE;
    var from := if restricted then start + 1 else start;
    var separatorIndex := if i == maxIndex then |s| else i;
    var body := s[from..separatorIndex];
    var domain := if nonAsciiFound then idna(body) else body;
    if IsRegexShaped(domain) {
      return Failure(RegexDomain);
    }
    return Success(Segment(restricted, domain));
  }

  /** The domains already stored in front of what the rest of the scan stores. */
  function Glue(donePermitted: seq<Domain>, doneRestricted: seq<Domain>, rest: Parsed): Parsed {
    Parsed(donePermitted + rest.permitted, doneRestricted + rest.restricted, rest.error)
  }

  /** Moving one accepted segment from the part still to scan to the part done. */
  lemma GlueStep(donePermitted: seq<Domain>, doneRestricted: seq<Domain>, seg: Segment, rest: Parsed)
    ensures var p := if seg.restricted then donePermitted else donePermitted + [seg.domain];
      var r := if seg.restricted then doneRestricted + [seg.domain] else doneRestricted;
      Glue(donePermitted, doneRestricted, Prepend(seg, rest)) == Glue(p, r, rest)
  {
  }

  /** A scan that stores nothing more leaves the stored domains as they are. */
  lemma GlueEnd(donePermitted: seq<Domain>, doneRestricted: seq<Domain>, error: Option<DomainError>)
    ensures Glue(donePermitted, doneRestricted, Parsed([], [], error)) == Parsed(donePermitted, doneRestricted, error)
  {
  }

  /** The scan the source's loop performs, byte by byte, from index `i` of a segment that began at `start`. */
  function ScanFrom(s: seq<Byte>, sep: Byte, start: nat, i: nat, idna: seq<Byte> -> seq<Byte>): Parsed
    requires start <= i <= |s|
    decreases |s| - i
  {
    if i == |s| then Parsed([], [], None)
    else if s[i] == sep || i == |s| - 1 then
      Step(ParsePiece(PieceEndingAt(s, start, i), i == |s| - 1, idna), ScanFrom(s, sep, i + 1, i + 1, idna))
    else ScanFrom(s, sep, start, i + 1, idna)
  }

  lemma {:induction false} ScanFromPieces(s: seq<Byte>, sep: Byte, start: nat, i: nat, idna: seq<Byte> -> seq<Byte>)
    requires start <= i <= |s|
    requires i == |s| ==> start == i
    ensures ScanFrom(s, sep, start, i, idna) == ScanPieces(Split(s, sep, start, i), idna)
    decreases |s| - i
  {
    if i < |s| {
      if s[i] == sep || i == |s| - 1 {
        ScanFromPieces(s, sep, i + 1, i + 1, idna);
        ScanFromBoundary(s, sep, start, i, idna);
      } else {
        ScanFromPieces(s, sep, start, i + 1, idna);
        assert ScanFrom(s, sep, start, i, idna) == ScanFrom(s, sep, start, i + 1, idna);
        assert Split(s, sep, start, i) == Split(s, sep, start, i + 1);
      }
    }
  }

  /** The boundary case of `ScanFromPieces`: one segment handled, the rest scanned alike. */
  lemma ScanFromBoundary(s: seq<Byte>, sep: Byte, start: nat, i: nat, idna: seq<Byte> -> seq<Byte>)
    requires start <= i < |s|
    requires s[i] == sep || i == |s| - 1
    requires ScanFrom(s, sep, i + 1, i + 1, idna) == ScanPieces(Split(s, sep, i + 1, i + 1), idna)
    ensures ScanFrom(s, sep, start, i, idna) == ScanPieces(Split(s, sep, start, i), idna)
  {
    ScanAtBoundary(s, sep, idna, start, i);
  }

  /** Extending a scanned range by one byte. */
  lemma NonAsciiSnoc(s: seq<Byte>, a: nat, b: nat)
    requires a <= b < |s|
    ensures HasNonAscii(s[a..b + 1]) == (HasNonAscii(s[a..b]) || s[b] > 127)
  {
    var t := s[a..b + 1];
    assert t[|t| - 1] == s[b];
    assert t[..|t| - 1] == s[a..b];
  }

  /**
   * At a boundary `i` (a separator or the final byte) the scan handles the
   * segment that began at `start` with the measure `i - start`, then scans
   * what follows `i`.
   */
  lemma ScanAtBoundary(s: seq<Byte>, sep: Byte, idna: seq<Byte> -> seq<Byte>, start: nat, i: nat)
    requires start <= i < |s|
    requires s[i] == sep || i == |s| - 1
    ensures var isLast := i == |s| - 1;
      var piece := if isLast then s[start..] else s[start..i];
      ScanPieces(Split(s, sep, start, i), idna) ==
        Step(ParsePiece(piece, isLast, idna), ScanPieces(Split(s, sep, i + 1, i + 1), idna))
  {
    var isLast := i == |s| - 1;
    var piece := if isLast then s[start..] else s[start..i];
    var ps := Split(s, sep, start, i);
    var rest := Split(s, sep, i + 1, i + 1);
    if isLast {
      assert ps == [piece];
      assert rest == [];
    } else {
      assert ps == [piece] + rest;
      assert ps[0] == piece && ps[1..] == rest;
    }
  }
}
