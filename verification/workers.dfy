/**
 * The three workers' `run` methods: exhaustive charset search, dictionary scan
 * and rainbow-table lookup. Each lower-cases the target, counts its candidates
 * up front, and drives the shared scan loop with its own probe.
 */
module Workers {
  import opened Wrappers
  import opened Text
  import opened Hashing
  import opened Enumeration
  import opened Search

  /** The charset worker reports progress every 10000 candidates. */
  const CharsetEvery: nat := 10000

  /** The file workers report progress every 1000 lines. */
  const LineEvery: nat := 1000

  /** The charset worker shows the candidate itself with its progress. */
  function Shown(candidate: string): string
  {
    candidate
  }

  /** Hash one generated candidate and compare the digest with the lower-cased target. */
  function CharsetProbe(lib: Hashlib, custom: Option<string -> CustomCall>, hashType: string, target: string, text: string): (r: Option<Hit>)
    ensures r.Some? <==> GetHash(lib, custom, text, hashType) == target
    ensures r.Some? ==> r.value == Hit(text, target)
  {
    var hashed := GetHash(lib, custom, text, hashType);
    if hashed == target then Some(Hit(text, hashed)) else None
  }

  /**
   * Hash one dictionary line, stripped; a line that is blank after stripping is
   * never hashed and never matches.
   */
  function DictionaryProbe(lib: Hashlib, custom: Option<string -> CustomCall>, hashType: string, target: string, line: string): (r: Option<Hit>)
    ensures r.Some? <==> !AllSpace(line) && GetHash(lib, custom, Strip(line), hashType) == target
    ensures r.Some? ==> r.value == Hit(Strip(line), target) && r.value.text != ""
  {
    StripEmptyIffAllSpace(line);
    var text := Strip(line);
    if text == "" then None
    else
      var hashed := GetHash(lib, custom, text, hashType);
      if hashed == target then Some(Hit(text, hashed)) else None
  }

  /**
   * `line`, stripped and split at its first colon, has a stored half that
   * lower-cases to `digest` and the plaintext half `plaintext`.
   */
  predicate TableEntry(line: string, digest: string, plaintext: string)
  {
    match SplitFirst(Strip(line), ':')
    case None => false
    case Some((stored, text)) => text == plaintext && Lower(stored) == digest
  }

  /**
   * Parse one rainbow-table line `digest:plaintext` (split at the first colon,
   * after stripping) and compare the lower-cased digest with the target; blank
   * lines and lines without a colon are skipped. No hashing happens.
   */
  function RainbowProbe(target: string, line: string): (r: Option<Hit>)
    ensures ':' !in Strip(line) ==> r.None?
    ensures r.Some? ==> r.value.digest == target && TableEntry(line, target, r.value.text)
    ensures r.None? ==> forall plaintext :: !TableEntry(line, target, plaintext)
  {
    var entry := Strip(line);
    if entry == "" then None
    else
      match SplitFirst(entry, ':')
      case None => None
      case Some((stored, plaintext)) =>
        var digest := Lower(stored);
        if digest == target then Some(Hit(plaintext, digest)) else None
  }

  /**
   * A line that strips to `stored:plaintext`, with no colon in `stored`, is the
   * entry (`stored` lower-cased, `plaintext`) and matches exactly when `stored`
   * lower-cases to the target; the plaintext may itself hold colons.
   */
  lemma RainbowEntry(target: string, line: string, stored: string, plaintext: string)
    requires ':' !in stored && Strip(line) == stored + [':'] + plaintext
    ensures TableEntry(line, Lower(stored), plaintext)
    ensures RainbowProbe(target, line) == if Lower(stored) == target then Some(Hit(plaintext, target)) else None
  {
    SplitFirstJoin(stored, plaintext, ':');
  }

  /** The hit the charset probe reports is the candidate itself, which hashes to the target. */
  lemma CharsetHit(lib: Hashlib, custom: Option<string -> CustomCall>, hashType: string, target: string,
                   text: string, probe: string -> Option<Hit>, hit: Hit)
    requires forall text :: probe(text) == CharsetProbe(lib, custom, hashType, target, text)
    requires probe(text) == Some(hit)
    ensures hit.text == text && hit.digest == target
    ensures GetHash(lib, custom, hit.text, hashType) == target
  {
    assert CharsetProbe(lib, custom, hashType, target, text) == Some(hit);
  }

  /** Candidates the scan found no hit in, with the charset probe, hash to something else. */
  lemma CharsetMisses(lib: Hashlib, custom: Option<string -> CustomCall>, hashType: string, target: string,
                      candidates: seq<string>, probe: string -> Option<Hit>, n: nat)
    requires n <= |candidates|
    requires forall text :: probe(text) == CharsetProbe(lib, custom, hashType, target, text)
    requires NoHit(candidates, probe, n)
    ensures forall k :: 0 <= k < n ==> GetHash(lib, custom, candidates[k], hashType) != target
  {
    forall k | 0 <= k < n
      ensures GetHash(lib, custom, candidates[k], hashType) != target
    {
      assert probe(candidates[k]).None?;
    }
  }

  /** The charset probe for one search, as the function the scan applies to each candidate. */
  function CharsetProber(lib: Hashlib, custom: Option<string -> CustomCall>, hashType: string, target: string): (probe: string -> Option<Hit>)
    ensures forall text :: probe(text) == CharsetProbe(lib, custom, hashType, target, text)
  {
    text => CharsetProbe(lib, custom, hashType, target, text)
  }

  /**
   * The first loop of `BruteForceWorker.run`: add up `len(charset) ** length`
   * for every length in the range; this is exactly the number of candidates.
   */
  method CountCombinations(charset: string, minLength: nat, maxLength: nat) returns (total: nat)
    ensures total == |Candidates(charset, minLength, maxLength)|
  {
    total := 0;
    var length := minLength;
    while length <= maxLength
      invariant minLength <= length
      invariant total + SumPow(|charset|, length, maxLength + 1) == TotalCombinations(charset, minLength, maxLength)
      decreases maxLength + 1 - length
    {
      total := total + Pow(|charset|, length);
      length := length + 1;
    }
    CandidatesCount(charset, minLength, maxLength);
  }

  /**
   * `BruteForceWorker.run`: the total is the sum of `len(charset) ** L` over the
   * length range, the candidates come in `Candidates` order, and each is hashed
   * and compared with the lower-cased target.
   */
  method BruteForceRun(lib: Hashlib, custom: Option<string -> CustomCall>, hashType: string, targetHash: string,
                       charset: string, minLength: nat, maxLength: nat, cancel: Option<nat>)
    returns (events: seq<Event>, tried: nat, outcome: Outcome)
    ensures |Candidates(charset, minLength, maxLength)| == TotalCombinations(charset, minLength, maxLength)
    ensures tried <= TotalCombinations(charset, minLength, maxLength)
    ensures events == Ticks(Candidates(charset, minLength, maxLength), Shown, tried,
                            TotalCombinations(charset, minLength, maxLength), CharsetEvery) + Closing(outcome)
    ensures Protocol(events)
    ensures outcome.Matched? ==>
      && 0 < tried
      && outcome.hit.text == Candidates(charset, minLength, maxLength)[tried - 1]
      && outcome.hit.digest == Lower(targetHash)
      && GetHash(lib, custom, outcome.hit.text, hashType) == outcome.hit.digest
      && Over(charset, outcome.hit.text) && minLength <= |outcome.hit.text| <= maxLength
    ensures forall k :: 0 <= k < tried && !(outcome.Matched? && k == tried - 1) ==>
      GetHash(lib, custom, Candidates(charset, minLength, maxLength)[k], hashType) != Lower(targetHash)
    ensures outcome.Exhausted? <==> tried == TotalCombinations(charset, minLength, maxLength) && !outcome.Matched? && Running(cancel, tried)
    ensures cancel.Some? ==> tried <= cancel.value
    ensures outcome.Cancelled? ==> cancel.Some? && tried == cancel.value
  {
    var target := Lower(targetHash);
    var total := CountCombinations(charset, minLength, maxLength);
    CandidatesCount(charset, minLength, maxLength);
    var candidates := Candidates(charset, minLength, maxLength);
    var probe := CharsetProber(lib, custom, hashType, target);
    events, tried, outcome := Scan(candidates, total, CharsetEvery, Shown, probe, cancel);
    CharsetMisses(lib, custom, hashType, target, candidates, probe, if outcome.Matched? then tried - 1 else tried);
    if outcome.Matched? {
      CandidateShape(charset, minLength, maxLength, tried - 1);
      CharsetHit(lib, custom, hashType, target, candidates[tried - 1], probe, outcome.hit);
    }
  }

  /** The first pass of the file workers: count the lines of the file. */
  method CountLines(lines: seq<string>) returns (total: nat)
    ensures total == |lines|
  {
    total := 0;
    while total < |lines|
      invariant total <= |lines|
    {
      total := total + 1;
    }
  }

  /** The hit the dictionary probe reports is the stripped, non-blank line, which hashes to the target. */
  lemma DictionaryHit(lib: Hashlib, custom: Option<string -> CustomCall>, hashType: string, target: string,
                      line: string, probe: string -> Option<Hit>, hit: Hit)
    requires forall line :: probe(line) == DictionaryProbe(lib, custom, hashType, target, line)
    requires probe(line) == Some(hit)
    ensures hit.text == Strip(line) && hit.text != "" && hit.digest == target
    ensures GetHash(lib, custom, hit.text, hashType) == target
  {
    assert DictionaryProbe(lib, custom, hashType, target, line) == Some(hit);
  }

  /** Lines the scan found no hit in, with the dictionary probe, are blank or hash to something else. */
  lemma DictionaryMisses(lib: Hashlib, custom: Option<string -> CustomCall>, hashType: string, target: string,
                         lines: seq<string>, probe: string -> Option<Hit>, n: nat)
    requires n <= |lines|
    requires forall line :: probe(line) == DictionaryProbe(lib, custom, hashType, target, line)
    requires NoHit(lines, probe, n)
    ensures forall k :: 0 <= k < n ==> AllSpace(lines[k]) || GetHash(lib, custom, Strip(lines[k]), hashType) != target
  {
    forall k | 0 <= k < n
      ensures AllSpace(lines[k]) || GetHash(lib, custom, Strip(lines[k]), hashType) != target
    {
      assert probe(lines[k]).None?;
    }
  }

  /** The dictionary probe for one search, as the function the scan applies to each line. */
  function DictionaryProber(lib: Hashlib, custom: Option<string -> CustomCall>, hashType: string, target: string): (probe: string -> Option<Hit>)
    ensures forall line :: probe(line) == DictionaryProbe(lib, custom, hashType, target, line)
  {
    line => DictionaryProbe(lib, custom, hashType, target, line)
  }

  /**
   * `DictionaryBruteForceWorker.run`: a first pass counts the lines, a second
   * counts every line (blank ones too) towards progress and hashes each
   * non-blank stripped line.
   */
  method DictionaryRun(lib: Hashlib, custom: Option<string -> CustomCall>, hashType: string, targetHash: string,
                       lines: seq<string>, cancel: Option<nat>)
    returns (events: seq<Event>, tried: nat, outcome: Outcome)
    ensures tried <= |lines|
    ensures events == Ticks(lines, Strip, tried, |lines|, LineEvery) + Closing(outcome)
    ensures Protocol(events)
    ensures outcome.Matched? ==>
      && 0 < tried
      && outcome.hit.text == Strip(lines[tried - 1]) && outcome.hit.text != ""
      && outcome.hit.digest == Lower(targetHash)
      && GetHash(lib, custom, outcome.hit.text, hashType) == outcome.hit.digest
    ensures forall k :: 0 <= k < tried && !(outcome.Matched? && k == tried - 1) ==>
      AllSpace(lines[k]) || GetHash(lib, custom, Strip(lines[k]), hashType) != Lower(targetHash)
    ensures outcome.Exhausted? <==> tried == |lines| && !outcome.Matched? && Running(cancel, tried)
    ensures cancel.Some? ==> tried <= cancel.value
    ensures outcome.Cancelled? ==> cancel.Some? && tried == cancel.value
  {
    var target := Lower(targetHash);
    var totalLines := CountLines(lines);
    var probe := DictionaryProber(lib, custom, hashType, target);
    events, tried, outcome := Scan(lines, totalLines, LineEvery, Strip, probe, cancel);
    DictionaryMisses(lib, custom, hashType, target, lines, probe, if outcome.Matched? then tried - 1 else tried);
    if outcome.Matched? {
      DictionaryHit(lib, custom, hashType, target, lines[tried - 1], probe, outcome.hit);
    }
  }

  /** Lines the scan found no hit in, with the rainbow probe, are lines that are not the target's entry. */
  lemma RainbowMisses(target: string, lines: seq<string>, probe: string -> Option<Hit>, n: nat)
    requires n <= |lines|
    requires forall line :: probe(line) == RainbowProbe(target, line)
    requires NoHit(lines, probe, n)
    ensures forall k :: 0 <= k < n ==> RainbowProbe(target, lines[k]).None?
  {
    forall k | 0 <= k < n
      ensures RainbowProbe(target, lines[k]).None?
    {
      assert probe(lines[k]).None?;
    }
  }

  /** The rainbow probe for one search, as the function the scan applies to each line. */
  function RainbowProber(target: string): (probe: string -> Option<Hit>)
    ensures forall line :: probe(line) == RainbowProbe(target, line)
  {
    line => RainbowProbe(target, line)
  }

  /**
   * `RainbowTableWorker.run`: a first pass counts the lines, a second counts
   * every line towards progress and looks each `digest:plaintext` entry up;
   * the algorithm name plays no part.
   */
  method RainbowRun(targetHash: string, lines: seq<string>, cancel: Option<nat>)
    returns (events: seq<Event>, tried: nat, outcome: Outcome)
    ensures tried <= |lines|
    ensures events == Ticks(lines, Strip, tried, |lines|, LineEvery) + Closing(outcome)
    ensures Protocol(events)
    ensures outcome.Matched? ==>
      && 0 < tried
      && RainbowProbe(Lower(targetHash), lines[tried - 1]) == Some(outcome.hit)
    ensures forall k :: 0 <= k < tried && !(outcome.Matched? && k == tried - 1) ==>
      RainbowProbe(Lower(targetHash), lines[k]).None?
    ensures outcome.Exhausted? <==> tried == |lines| && !outcome.Matched? && Running(cancel, tried)
    ensures cancel.Some? ==> tried <= cancel.value
    ensures outcome.Cancelled? ==> cancel.Some? && tried == cancel.value
  {
    var target := Lower(targetHash);
    var totalLines := CountLines(lines);
    var probe := RainbowProber(target);
    events, tried, outcome := Scan(lines, totalLines, LineEvery, Strip, probe, cancel);
    RainbowMisses(target, lines, probe, if outcome.Matched? then tried - 1 else tried);
    if outcome.Matched? {
      var line := lines[tried - 1];
      assert RainbowProbe(target, line) == Some(outcome.hit) by {
        assert probe(line) == Some(outcome.hit);
      }
    }
  }
}
