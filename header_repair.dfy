/**
 * Reading a descriptor fragment as lines, and checking and repairing its
 * repository header (DefaultP2TychoRepositoryAggregator, lines 432-590).
 *
 * Tycho emits `-p2artifacts.xml` / `-p2content.xml` fragments without the
 * repository root element the p2 toolkit expects.  The aggregator looks at a
 * fixed line of the fragment and, when the header is missing, inserts one
 * (with a `p2.timestamp` property) and appends the closing element.
 */
module HeaderRepair {
  import opened Outcomes
  import opened Text

  // ----- reading a file with java.util.Scanner -----

  /** Character.isWhitespace, which Scanner's default delimiter matches. */
  predicate IsJavaWhitespace(c: char) {
    ('\t' <= c <= '\r') || ('\U{1C}' <= c <= ' ')
    || c == '\U{1680}' || ('\U{2000}' <= c <= '\U{2006}') || ('\U{2008}' <= c <= '\U{200A}')
    || c == '\U{2028}' || c == '\U{2029}' || c == '\U{205F}' || c == '\U{3000}'
  }

  /** A line with no token on it. */
  predicate IsBlank(line: string) {
    forall i :: 0 <= i < |line| ==> IsJavaWhitespace(line[i])
  }

  /** Scanner.hasNext() positioned at the start of line `k`: a token follows. */
  predicate HasNext(text: seq<string>, k: nat) {
    exists i | k <= i < |text| :: !IsBlank(text[i])
  }

  /** Number of lines up to and including the last line that holds a token. */
  function TokenLinesEnd(text: seq<string>): (n: nat)
    ensures n <= |text|
    ensures forall i :: n <= i < |text| ==> IsBlank(text[i])
    ensures n > 0 ==> !IsBlank(text[n - 1])
    decreases |text|
  {
    if |text| == 0 then 0
    else if !IsBlank(text[|text| - 1]) then |text|
    else TokenLinesEnd(text[..|text| - 1])
  }

  /**
   * What readLinesFromFile returns for a file whose lines are `text`: the
   * loop tests hasNext() (a token test) before each nextLine(), so the
   * trailing lines that hold no token are never read.
   */
  function ScannedLines(text: seq<string>): seq<string> {
    text[..TokenLinesEnd(text)]
  }

  /** The Scanner loop of readLinesFromFile over the lines of the file. */
  method ReadLines(text: seq<string>) returns (lines: seq<string>)
    ensures lines <= text
    ensures forall i :: |lines| <= i < |text| ==> IsBlank(text[i])
    ensures lines == [] || !IsBlank(lines[|lines| - 1])
    ensures lines == ScannedLines(text)
  {
    lines := [];
    var k := 0;
    while HasNext(text, k)
      invariant k <= TokenLinesEnd(text)
      invariant lines == text[..k]
      decreases |text| - k
    {
      lines := lines + [text[k]];
      k := k + 1;
    }
    HasNextBeforeEnd(text, k);
  }

  /** A token follows line `k` exactly when `k` is before the last token line. */
  lemma HasNextBeforeEnd(text: seq<string>, k: nat)
    ensures HasNext(text, k) <==> k < TokenLinesEnd(text)
  {
    if k < TokenLinesEnd(text) {
      assert !IsBlank(text[TokenLinesEnd(text) - 1]);
    }
  }

  // ----- header check and repair -----

  const RepositoryElement := "<repository"
  const MetadataInstruction := "<?metadataRepository"

  const ArtifactsRepositoryRoot :=
    RepositoryElement + " name=\"temporary\" type=\"org.eclipse.equinox.p2.artifact.repository.simpleRepository\" version=\"1\">"
  const MetadataProcessingInstruction := MetadataInstruction + " version='1.1.0'?>"
  const MetadataRepositoryRoot :=
    RepositoryElement + " name=\"temporary\" type=\"org.eclipse.equinox.internal.p2.metadata.repository.LocalMetadataRepository\" version=\"1\">"
  const RepositoryEnd := "</repository>"

  /** The properties line carrying `now` (milliseconds since the epoch). */
  function TimestampProperties(now: int): string {
    "<properties size=\"1\"><property name=\"p2.timestamp\" value=\"" + IntToString(now) + "\"/> </properties>"
  }

  /** ArrayList.add(index, element). */
  function Insert(s: seq<string>, index: nat, x: string): (r: seq<string>)
    requires index <= |s|
    ensures |r| == |s| + 1 && r[index] == x
    ensures r[..index] == s[..index] && r[index + 1..] == s[index..]
  {
    s[..index] + [x] + s[index..]
  }

  /** hasArtifactsRepositoryHeader: `lines.get(2).contains("<repository")`. */
  function HasArtifactsRepositoryHeader(lines: seq<string>): (r: Result<bool>)
    ensures r.Throws? <==> |lines| < 3
    ensures r == Ok(true) <==> |lines| >= 3 && Contains(lines[2], RepositoryElement)
  {
    if |lines| < 3 then Throws(IndexOutOfBounds) else Ok(Contains(lines[2], RepositoryElement))
  }

  /** hasMetadataRepositoryHeader: `lines.get(1).contains("<?metadataRepository")`. */
  function HasMetadataRepositoryHeader(lines: seq<string>): (r: Result<bool>)
    ensures r.Throws? <==> |lines| < 2
    ensures r == Ok(true) <==> |lines| >= 2 && Contains(lines[1], MetadataInstruction)
  {
    if |lines| < 2 then Throws(IndexOutOfBounds) else Ok(Contains(lines[1], MetadataInstruction))
  }

  lemma RootsStartWithTheirMarkers()
    ensures RepositoryElement <= ArtifactsRepositoryRoot
    ensures MetadataInstruction <= MetadataProcessingInstruction
  {
  }

  /**
   * The lines fixArtifactsRepositoryHeader leaves in the list and writes to
   * its temporary file.  `add(2, …)` needs at least two lines; the caller has
   * already read line 2.
   */
  function RepairedArtifactsLines(lines: seq<string>, now: int): (r: seq<string>)
    requires |lines| >= 2
    ensures |r| == |lines| + 3
    ensures r[2] == ArtifactsRepositoryRoot && r[3] == TimestampProperties(now)
    ensures r[|r| - 1] == RepositoryEnd
    ensures r[..2] + r[4..|r| - 1] == lines
    ensures HasArtifactsRepositoryHeader(r) == Ok(true)
  {
    var r := Insert(Insert(Insert(lines, 2, ArtifactsRepositoryRoot), 3, TimestampProperties(now)), |lines| + 2, RepositoryEnd);
    assert r[..2] == lines[..2] && r[4..|r| - 1] == lines[2..];
    RootsStartWithTheirMarkers();
    r
  }

  /**
   * The lines fixMetadataRepositoryHeader leaves in the list and writes to
   * its temporary file.  `add(1, …)` needs at least one line; the caller has
   * already read line 1.
   */
  function RepairedMetadataLines(lines: seq<string>, now: int): (r: seq<string>)
    requires |lines| >= 1
    ensures |r| == |lines| + 4
    ensures r[1] == MetadataProcessingInstruction && r[2] == MetadataRepositoryRoot
    ensures r[3] == TimestampProperties(now) && r[|r| - 1] == RepositoryEnd
    ensures r[..1] + r[4..|r| - 1] == lines
    ensures HasMetadataRepositoryHeader(r) == Ok(true)
  {
    var r := Insert(Insert(Insert(Insert(lines, 1, MetadataProcessingInstruction), 2, MetadataRepositoryRoot), 3, TimestampProperties(now)), |lines| + 3, RepositoryEnd);
    assert r[..1] == lines[..1] && r[4..|r| - 1] == lines[1..];
    RootsStartWithTheirMarkers();
    r
  }

  /**
   * fixArtifactsRepositoryHeader's three in-place `add` calls on the line
   * list, in the order the source makes them.
   */
  method FixArtifactsRepositoryHeader(lines: seq<string>, now: int) returns (fixed: seq<string>)
    requires |lines| >= 2
    ensures fixed == RepairedArtifactsLines(lines, now)
  {
    fixed := lines;
    fixed := Insert(fixed, 2, ArtifactsRepositoryRoot);
    fixed := Insert(fixed, 3, TimestampProperties(now));
    fixed := Insert(fixed, |fixed|, RepositoryEnd);
  }

  /** fixMetadataRepositoryHeader's four in-place `add` calls on the line list. */
  method FixMetadataRepositoryHeader(lines: seq<string>, now: int) returns (fixed: seq<string>)
    requires |lines| >= 1
    ensures fixed == RepairedMetadataLines(lines, now)
  {
    fixed := lines;
    fixed := Insert(fixed, 1, MetadataProcessingInstruction);
    fixed := Insert(fixed, 2, MetadataRepositoryRoot);
    fixed := Insert(fixed, 3, TimestampProperties(now));
    fixed := Insert(fixed, |fixed|, RepositoryEnd);
  }

  /**
   * The header check of a fragment read from a file fails with an index
   * error exactly when fewer than three lines hold or precede a token.
   */
  lemma ArtifactsCheckNeedsThreeLines(text: seq<string>)
    ensures HasArtifactsRepositoryHeader(ScannedLines(text)).Throws? <==> TokenLinesEnd(text) < 3
  {
  }
}
