/**
 * The checks made when the start button is pressed, before any worker is
 * created: the target first, then whatever the selected tab needs.
 */
module Launch {
  import opened Wrappers
  import opened Text
  import opened Enumeration
  import opened Charset

  /**
   * The selected tab with the inputs it reads. Whether a path names an
   * existing file is asked of the file system, so it arrives as `isFile`.
   */
  datatype Tab =
    | CharsetTab(sel: Selection, minLength: nat, maxLength: nat)
    | DictionaryTab(path: string, isFile: bool)
    | RainbowTab(path: string, isFile: bool)
    | CustomHashTab

  /** The reasons the start is refused, each reported as a line in the results pane. */
  datatype ConfigError = EmptyTarget | EmptyCharset | InvalidRange | BadDictionaryFile | BadRainbowFile | NotASearchTab

  /**
   * The worker that is started, with the arguments it is given. The rainbow
   * worker is not given the selected algorithm name.
   */
  datatype Job =
    | CharsetJob(hashType: string, target: string, charset: string, minLength: nat, maxLength: nat)
    | DictionaryJob(hashType: string, target: string, path: string)
    | RainbowJob(target: string, path: string)

  /** No preset group is checked and the custom field is empty. */
  predicate NothingSelected(sel: Selection)
  {
    !sel.lowercase && !sel.uppercase && !sel.digits && !sel.special && sel.custom == []
  }

  lemma PowPositive(b: nat, e: nat)
    requires 0 < b
    ensures 0 < Pow(b, e)
  {
  }

  /** A non-empty charset and a non-empty length range give at least one candidate. */
  lemma TotalPositive(charset: string, minLength: nat, maxLength: nat)
    requires charset != [] && minLength <= maxLength
    ensures 1 <= TotalCombinations(charset, minLength, maxLength)
  {
    PowPositive(|charset|, minLength);
  }

  /**
   * `start_bruteforce` up to starting the worker. The target is stripped and
   * must not be empty; then the charset tab needs a non-empty charset and
   * `minLength <= maxLength`, the file tabs need a path naming a file, and the
   * custom-hash tab never starts a search.
   */
  method Prepare(targetText: string, hashType: string, tab: Tab) returns (r: Result<Job, ConfigError>)
    ensures r == Failure(EmptyTarget) <==> AllSpace(targetText)
    ensures r.Success? ==> r.value.target == Strip(targetText) && r.value.target != ""
    ensures tab.CharsetTab? ==>
      && (r == Failure(EmptyCharset) <==> !AllSpace(targetText) && NothingSelected(tab.sel))
      && (r == Failure(InvalidRange) <==>
            !AllSpace(targetText) && !NothingSelected(tab.sel) && tab.maxLength < tab.minLength)
      && (r.Success? <==>
            !AllSpace(targetText) && !NothingSelected(tab.sel) && tab.minLength <= tab.maxLength)
    ensures r.Success? && tab.CharsetTab? ==>
      && r.value.CharsetJob?
      && r.value.hashType == hashType
      && r.value.charset == FirstOccurrences(Presets(tab.sel) + tab.sel.custom)
      && r.value.minLength == tab.minLength && r.value.maxLength == tab.maxLength
      && Distinct(r.value.charset)
      && 1 <= TotalCombinations(r.value.charset, r.value.minLength, r.value.maxLength)
    ensures tab.DictionaryTab? ==>
      && (r == Failure(BadDictionaryFile) <==> !AllSpace(targetText) && (tab.path == [] || !tab.isFile))
      && (r.Success? <==> !AllSpace(targetText) && tab.path != [] && tab.isFile)
      && (r.Success? ==> r.value == DictionaryJob(hashType, Strip(targetText), tab.path))
    ensures tab.RainbowTab? ==>
      && (r == Failure(BadRainbowFile) <==> !AllSpace(targetText) && (tab.path == [] || !tab.isFile))
      && (r.Success? <==> !AllSpace(targetText) && tab.path != [] && tab.isFile)
      && (r.Success? ==> r.value == RainbowJob(Strip(targetText), tab.path))
    ensures tab.CustomHashTab? ==> (r == Failure(NotASearchTab) <==> !AllSpace(targetText)) && r.Failure?
  {
    var target := Strip(targetText);
    StripEmptyIffAllSpace(targetText);
    if target == [] {
      return Failure(EmptyTarget);
    }
    match tab
    case CharsetTab(sel, minLength, maxLength) =>
      var charset := GetCharset(sel);
      if charset == [] {
        return Failure(EmptyCharset);
      }
      if minLength > maxLength {
        return Failure(InvalidRange);
      }
      TotalPositive(charset, minLength, maxLength);
      r := Success(CharsetJob(hashType, target, charset, minLength, maxLength));
    case DictionaryTab(path, isFile) =>
      if path == [] || !isFile {
        return Failure(BadDictionaryFile);
      }
      r := Success(DictionaryJob(hashType, target, path));
    case RainbowTab(path, isFile) =>
      if path == [] || !isFile {
        return Failure(BadRainbowFile);
      }
      r := Success(RainbowJob(target, path));
    case CustomHashTab =>
      r := Failure(NotASearchTab);
  }
}
