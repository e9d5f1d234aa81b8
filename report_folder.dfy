/** The output folder both the review extractor and the overview write to:
    `reviews_{appId}_{name}`, where the application name has the characters
    that Windows forbids in file names replaced by '_'. */
module ReportFolder {
  import opened Text
  import opened Numbers

  /** The regex class `[<>:"/\\|?*]`. */
  predicate IsReserved(c: char) {
    c == '<' || c == '>' || c == ':' || c == '"' || c == '/' || c == '\\' || c == '|' || c == '?' || c == '*'
  }

  /** `Regex.Replace(appName ?? "", @"[<>:""/\\|?*]", "_")`: each reserved
      character becomes '_', every other character is kept, in place. */
  function SanitizeAppName(name: string): (r: string)
    ensures |r| == |name|
    ensures forall i :: 0 <= i < |name| ==> r[i] == (if IsReserved(name[i]) then '_' else name[i])
    decreases |name|
  {
    if name == [] then []
    else [if IsReserved(name[0]) then '_' else name[0]] + SanitizeAppName(name[1..])
  }

  predicate FreeOfReserved(s: string) {
    forall i :: 0 <= i < |s| ==> !IsReserved(s[i])
  }

  /** No reserved character is left, and sanitising again changes nothing. */
  lemma SanitizeAppNameClean(name: string)
    ensures FreeOfReserved(SanitizeAppName(name))
    ensures SanitizeAppName(SanitizeAppName(name)) == SanitizeAppName(name)
  {
    var r := SanitizeAppName(name);
    assert FreeOfReserved(r);
    var rr := SanitizeAppName(r);
    assert forall i :: 0 <= i < |r| ==> rr[i] == r[i];
  }

  /** A name without reserved characters is kept as it is. */
  lemma SanitizeAppNameKeeps(name: string)
    requires FreeOfReserved(name)
    ensures SanitizeAppName(name) == name
  {
    var r := SanitizeAppName(name);
    assert forall i :: 0 <= i < |name| ==> r[i] == name[i];
  }

  /** The folder name `reviews_{appId}_{sanitizedAppName}` (the desktop
      directory it is placed in is not part of this model). */
  function OutFolder(appId: int, appName: string): (r: string)
    ensures FreeOfReserved(r)
  {
    SanitizeAppNameClean(appName);
    var id := IntToString(appId);
    assert FreeOfReserved(id) by {
      assert forall i :: 0 <= i < |id| ==> IsAsciiDigit(id[i]) || id[i] == '-';
    }
    "reviews_" + id + "_" + SanitizeAppName(appName)
  }
}
