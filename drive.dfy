/**
 * `extractDriveId`: a Google Drive file ID taken from a share link, a legacy
 * `?id=` link, or a bare ID, by three regular-expression tests in order.
 */
module Drive {
  import opened Wrappers

  /** The class `[a-zA-Z0-9_-]`. */
  predicate IsIdChar(c: char) {
    ('a' <= c <= 'z') || ('A' <= c <= 'Z') || ('0' <= c <= '9') || c == '_' || c == '-'
  }

  /** The `{25,}` bound of every pattern. */
  const MIN_ID_LENGTH: nat := 25

  /** The length of the run of ID characters starting at `i`: what the greedy
      `[a-zA-Z0-9_-]{25,}` consumes there. */
  function RunLength(s: string, i: nat): (n: nat)
    requires i <= |s|
    ensures i + n <= |s|
    decreases |s| - i
  {
    if i < |s| && IsIdChar(s[i]) then 1 + RunLength(s, i + 1) else 0
  }

  /** The run is made of ID characters and is maximal: it stops at the end of
      the input or at a character outside the class. */
  lemma {:induction false} RunSpec(s: string, i: nat)
    requires i <= |s|
    ensures forall k :: i <= k < i + RunLength(s, i) ==> IsIdChar(s[k])
    ensures i + RunLength(s, i) == |s| || !IsIdChar(s[i + RunLength(s, i)])
    decreases |s| - i
  {
    if i < |s| && IsIdChar(s[i]) {
      RunSpec(s, i + 1);
    }
  }

  /** The literal part in front of the captured ID: `\/file\/d\/` or `[?&]id=`. */
  datatype Anchor = FileD | IdParam

  function AnchorLength(a: Anchor): nat {
    match a
    case FileD => 8
    case IdParam => 4
  }

  predicate AnchorAt(s: string, a: Anchor, i: nat) {
    && i + AnchorLength(a) <= |s|
    && match a
       case FileD => s[i..i + 8] == "/file/d/"
       case IdParam => (s[i] == '?' || s[i] == '&') && s[i + 1..i + 4] == "id="
  }

  /** The whole pattern, anchor then at least 25 ID characters, matches at `i`. */
  predicate MatchesAt(s: string, a: Anchor, i: nat) {
    AnchorAt(s, a, i) && RunLength(s, i + AnchorLength(a)) >= MIN_ID_LENGTH
  }

  /** The leftmost index at or after `i` where the pattern matches. */
  function SearchFrom(s: string, a: Anchor, i: nat): (r: Option<nat>)
    requires i <= |s|
    ensures r.Some? ==> i <= r.value <= |s| && MatchesAt(s, a, r.value)
    ensures forall k :: i <= k <= |s| && (r.None? || k < r.value) ==> !MatchesAt(s, a, k)
    decreases |s| - i
  {
    if MatchesAt(s, a, i) then Some(i)
    else if i == |s| then None
    else SearchFrom(s, a, i + 1)
  }

  /** Capture group 1 of `s.match(pattern)`: the greedy ID run after the
      anchor of the leftmost match. */
  function Capture(s: string, a: Anchor): Option<string> {
    match SearchFrom(s, a, 0)
    case None => None
    case Some(i) =>
      var start := i + AnchorLength(a);
      Some(s[start..start + RunLength(s, start)])
  }

  /** `/^[a-zA-Z0-9_-]{25,}$/.test(s)`. */
  predicate IsBareId(s: string) {
    |s| >= MIN_ID_LENGTH && forall k :: 0 <= k < |s| ==> IsIdChar(s[k])
  }

  /** `extractDriveId(input)`: the share-link pattern first, then the `id=`
      parameter, then the whole input; None where the script returns null. */
  function ExtractDriveId(input: string): Option<string> {
    if input == "" then None
    else
      match Capture(input, FileD)
      case Some(id) => Some(id)
      case None =>
        match Capture(input, IdParam)
        case Some(id) => Some(id)
        case None => if IsBareId(input) then Some(input) else None
  }

  /** The ID pattern captures something exactly when it matches somewhere. */
  lemma CaptureIffMatch(s: string, a: Anchor)
    ensures Capture(s, a).Some? <==> exists k :: 0 <= k <= |s| && MatchesAt(s, a, k)
  {
    match SearchFrom(s, a, 0)
    case None =>
    case Some(i) =>
      assert MatchesAt(s, a, i);
  }

  /** A captured ID is a maximal run of at least 25 ID characters that stands
      in the input right after the anchor of the leftmost match. */
  lemma CaptureSpec(s: string, a: Anchor)
    requires Capture(s, a).Some?
    ensures
      var i := SearchFrom(s, a, 0).value;
      var start := i + AnchorLength(a);
      var id := Capture(s, a).value;
      && AnchorAt(s, a, i)
      && (forall k :: 0 <= k < i ==> !MatchesAt(s, a, k))
      && start + |id| <= |s| && s[start..start + |id|] == id
      && IsBareId(id)
      && (start + |id| == |s| || !IsIdChar(s[start + |id|]))
  {
    var i := SearchFrom(s, a, 0).value;
    var start := i + AnchorLength(a);
    var n := RunLength(s, start);
    var id := s[start..start + n];
    assert Capture(s, a) == Some(id);
    RunSpec(s, start);
    forall k | 0 <= k < |id|
      ensures IsIdChar(id[k])
    {
      assert id[k] == s[start + k];
    }
  }

  /** The result is null or a run of at least 25 ID characters taken from the
      input, and the patterns are tried in order: a share link wins over an
      `id=` parameter, which wins over a bare ID. */
  lemma ExtractDriveIdSpec(input: string)
    ensures ExtractDriveId(input).Some? ==> IsBareId(ExtractDriveId(input).value)
    ensures Capture(input, FileD).Some? ==> ExtractDriveId(input) == Capture(input, FileD)
    ensures Capture(input, FileD).None? && Capture(input, IdParam).Some? ==>
      ExtractDriveId(input) == Capture(input, IdParam)
    ensures ExtractDriveId(input).None? <==>
      Capture(input, FileD).None? && Capture(input, IdParam).None? && !IsBareId(input)
  {
    if Capture(input, FileD).Some? {
      CaptureSpec(input, FileD);
    }
    if Capture(input, IdParam).Some? {
      CaptureSpec(input, IdParam);
    }
    if input == "" {
      assert forall k :: 0 <= k <= |input| ==> !AnchorAt(input, FileD, k);
      assert forall k :: 0 <= k <= |input| ==> !AnchorAt(input, IdParam, k);
    }
  }

  /** A bare ID contains neither `/` nor `?` nor `&`, so neither link pattern
      can match it and it is returned unchanged. */
  lemma BareIdReturnedAsIs(id: string)
    requires IsBareId(id)
    ensures ExtractDriveId(id) == Some(id)
  {
    forall k | 0 <= k <= |id|
      ensures !AnchorAt(id, FileD, k) && !AnchorAt(id, IdParam, k)
    {
      if k < |id| {
        assert IsIdChar(id[k]);
      }
    }
    CaptureIffMatch(id, FileD);
    CaptureIffMatch(id, IdParam);
  }

  /** An input with no run of 25 ID characters yields null. */
  lemma ShortRunsGiveNull(input: string)
    requires forall k :: 0 <= k <= |input| ==> RunLength(input, k) < MIN_ID_LENGTH
    ensures ExtractDriveId(input).None?
  {
    CaptureIffMatch(input, FileD);
    CaptureIffMatch(input, IdParam);
    RunCoversIdChars(input, 0);
  }

  /** The run starting at `i` reaches the end when every character after `i`
      is an ID character. */
  lemma {:induction false} RunCoversIdChars(s: string, i: nat)
    requires i <= |s|
    ensures (forall k :: i <= k < |s| ==> IsIdChar(s[k])) <==> RunLength(s, i) == |s| - i
    decreases |s| - i
  {
    if i < |s| {
      RunCoversIdChars(s, i + 1);
    }
  }
}
