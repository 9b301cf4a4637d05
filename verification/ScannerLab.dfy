/**
 * The scanner lab scans the submitted text and writes the verdict into the object
 * key, so that a scanner that sees only the key reports what a scanner that sees
 * the body would.
 */
module ScannerLab {
  import opened Wrappers
  import opened Utf
  import opened Sequences
  import opened MarkerScanner

  const LAB_FOLDER := "scanner-lab/"

  function MarkerLabel(status: Status): string {
    match status
    case Infected => INFECTED_MARKER + "--"
    case Unknown => UNKNOWN_MARKER + "--"
    case Clean => ""
  }

  function LabKey(status: Status, seed: string): string {
    LAB_FOLDER + MarkerLabel(status) + seed
  }

  predicate HasInfected(s: string) {
    Includes(s, INFECTED_MARKER)
  }

  predicate HasUnknown(s: string) {
    Includes(s, UNKNOWN_MARKER)
  }

  /** The verdict and the key the lab uploads under; a missing seed is replaced by a fresh UUID. */
  method Classify(content: seq<CodeUnit>, keySeed: Option<string>, uuid: string) returns (verdict: ScanResult, key: string)
    ensures verdict == ScanOfBytes(Utf8Bytes(content))
    ensures key == LabKey(verdict.status, if keySeed.Some? then keySeed.value else uuid)
    ensures key == "scanner-lab/"
                   + (match verdict.status
                      case Infected => "X-DEMO-INFECTED--"
                      case Unknown => "X-DEMO-UNKNOWN--"
                      case Clean => "")
                   + (if keySeed.Some? then keySeed.value else uuid)
    ensures var seed := if keySeed.Some? then keySeed.value else uuid;
            Verdict(key).status == verdict.status
            <==> match verdict.status
                 case Infected => true
                 case Unknown => !HasInfected(seed)
                 case Clean => !HasInfected(seed) && !HasUnknown(seed)
  {
    verdict := Scan(Some(Buffer(Utf8Bytes(content))), LAB_FOLDER + "diagnostic-probe");
    var seed := if keySeed.Some? then keySeed.value else uuid;
    key := LAB_FOLDER + MarkerLabel(verdict.status) + seed;
    KeyShowsStatus(verdict.status, seed);
  }

  lemma FolderIsInert(s: string)
    ensures HasInfected(LAB_FOLDER + s) == HasInfected(s) && HasUnknown(LAB_FOLDER + s) == HasUnknown(s)
  {
    SkipFront(LAB_FOLDER, s, INFECTED_MARKER);
    SkipFront(LAB_FOLDER, s, UNKNOWN_MARKER);
  }

  lemma InfectedLabelShows(seed: string)
    ensures HasInfected(MarkerLabel(Infected) + seed)
  {
    var s := MarkerLabel(Infected) + seed;
    assert s[..|INFECTED_MARKER|] == INFECTED_MARKER;
  }

  /** No infected marker can arise across the boundary of the unknown label. */
  lemma UnknownLabelIsInert(seed: string)
    ensures HasInfected(MarkerLabel(Unknown) + seed) == HasInfected(seed)
    ensures HasUnknown(MarkerLabel(Unknown) + seed)
  {
    var mark := MarkerLabel(Unknown);
    var s := mark + seed;
    assert s[7] == 'U' && INFECTED_MARKER[7] == 'I';
    assert s[1..] == mark[1..] + seed;
    SkipFront(mark[1..], seed, INFECTED_MARKER);
    assert s[..|UNKNOWN_MARKER|] == UNKNOWN_MARKER;
  }

  /**
   * Scanning the composed key gives the status that was written into it, except
   * for a seed that itself carries a marker worse than that status.
   */
  lemma KeyShowsStatus(status: Status, seed: string)
    ensures Verdict(LabKey(status, seed)).status == status
       <==> match status
            case Infected => true
            case Unknown => !HasInfected(seed)
            case Clean => !HasInfected(seed) && !HasUnknown(seed)
  {
    var tail := MarkerLabel(status) + seed;
    FolderIsInert(tail);
    assert LabKey(status, seed) == LAB_FOLDER + tail;
    match status
    case Infected => InfectedLabelShows(seed);
    case Unknown => UnknownLabelIsInert(seed);
    case Clean => assert tail == seed;
  }

  /** The characters of a UUID. */
  predicate IsUuidChar(c: char) {
    '0' <= c <= '9' || 'a' <= c <= 'f' || c == '-'
  }

  /** A generated seed carries no marker, so both scan modes always agree on it. */
  lemma UuidSeedsAgree(content: seq<CodeUnit>, uuid: string)
    requires forall c :: c in uuid ==> IsUuidChar(c)
    ensures var status := ScanOfBytes(Utf8Bytes(content)).status;
            Verdict(LabKey(status, uuid)).status == status
  {
    SkipFront(uuid, [], INFECTED_MARKER);
    SkipFront(uuid, [], UNKNOWN_MARKER);
    assert uuid + [] == uuid;
    KeyShowsStatus(ScanOfBytes(Utf8Bytes(content)).status, uuid);
  }

  /** What the request schema admits as a seed: 1 to 64 letters, digits and dashes. */
  predicate IsKeySeed(s: string) {
    1 <= |s| <= 64 && forall i :: 0 <= i < |s| ==> IsSeedChar(s[i])
  }

  predicate IsSeedChar(c: char) {
    'a' <= c <= 'z' || 'A' <= c <= 'Z' || '0' <= c <= '9' || c == '-'
  }

  lemma MarkerIsKeySeed()
    ensures IsKeySeed(INFECTED_MARKER)
  {
  }

  /** The schema admits a marker as a seed: a clean text under this seed scans as infected by key. */
  lemma SeedCanDisagree()
    ensures IsKeySeed(INFECTED_MARKER)
    ensures Verdict(LabKey(Clean, INFECTED_MARKER)).status == Infected
  {
    MarkerIsKeySeed();
    FolderIsInert(INFECTED_MARKER);
    assert LabKey(Clean, INFECTED_MARKER) == LAB_FOLDER + INFECTED_MARKER;
  }
}
