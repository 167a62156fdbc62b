/**
  The window locator of ud.cxx: which top-level windows are eligible, how a
  title is normalised, the match predicate, the first-match scan that stands
  for EnumWindows with its early stop, the list printed in enumerate mode,
  and the screen region captured for the chosen window.  Each window record
  holds what the USER32 queries returned for it.
*/
module Windows {
  import opened Wrappers
  import opened Regex
  import opened Wildcard

  const SW_NORMAL: int := 1
  const SW_MAXIMIZE: int := 3

  /** A process id (DWORD) and a window handle or requested id (64-bit). */
  type u32 = x: int | 0 <= x < 0x1_0000_0000
  type u64 = x: int | 0 <= x < 0x1_0000_0000_0000_0000

  datatype Rect = Rect(left: int, top: int, right: int, bottom: int)
  datatype Point = Point(x: int, y: int)

  /** One window as the enumeration sees it: visibility, its text and the
      console's title (both as retrieved, without the terminating NUL),
      whether the placement and info queries succeeded, the show command,
      the window rectangle, the client rectangle when it could be read, the
      screen position of the client origin, the owning process and the handle. */
  datatype WindowRec = WindowRec(
    visible: bool,
    title: seq<char>,
    consoleTitle: seq<char>,
    placementOk: bool,
    infoOk: bool,
    showCmd: int,
    rect: Rect,
    clientRect: Option<Rect>,
    clientOrigin: Point,
    pid: u32,
    hwnd: u64)

  /** General punctuation, U+2000..U+206F, which is shown as a space. */
  predicate IsPunctuation(c: char) {
    0x2000 <= c as int <= 0x206F
  }

  /** The title with every general-punctuation character replaced by a space. */
  function Normalise(s: seq<char>): (r: seq<char>)
    ensures |r| == |s|
    ensures forall i :: 0 <= i < |s| ==> r[i] == (if IsPunctuation(s[i]) then ' ' else s[i])
  {
    if s == [] then [] else [if IsPunctuation(s[0]) then ' ' else s[0]] + Normalise(s[1..])
  }

  /** Normalising twice is normalising once. */
  lemma NormaliseIdempotent(s: seq<char>)
    ensures Normalise(Normalise(s)) == Normalise(s)
  {
  }

  /** A normalised title holds no punctuation, and the only line terminators
      left in it are carriage return and line feed. */
  lemma NormaliseClearsPunctuation(s: seq<char>)
    ensures forall i :: 0 <= i < |s| ==> !IsPunctuation(Normalise(s)[i])
    ensures forall i :: 0 <= i < |s| && IsLineTerminator(Normalise(s)[i]) ==> Normalise(s)[i] in {'\n', '\r'}
  {
  }

  /** Is the window considered at all?  It must be visible, have a non-empty
      title that is not the console's own title, have answered the placement
      and info queries, and be shown normal or maximised. */
  predicate Eligible(w: WindowRec) {
    && w.visible
    && |w.title| > 0
    && !(|w.consoleTitle| != 0 && w.consoleTitle == w.title)
    && w.placementOk
    && w.infoOk
    && (w.showCmd == SW_NORMAL || w.showCmd == SW_MAXIMIZE)
  }

  /** Does the window match the target?  The regex is matched against the
      normalised title; the process id or the handle equal to the requested
      id also selects it.  None when the regex is outside the modelled fragment. */
  function MatchWindow(fold: char -> char, regex: seq<char>, appId: nat, w: WindowRec): (r: Option<bool>)
    ensures r.None? <==> Parse(regex).None?
    ensures r.Some? && (w.pid == appId || w.hwnd == appId) ==> r.value
    ensures r == Some(false) ==> w.pid != appId && w.hwnd != appId
  {
    match RegexMatch(fold, regex, Normalise(w.title))
    case None => None
    case Some(b) => Some(b || w.pid == appId || w.hwnd == appId)
  }

  /** The outcome of one enumeration pass in tracking mode. */
  datatype Located = Found(index: nat) | NotFound | Unsupported(index: nat)

  function Shift(r: Located): Located {
    match r
    case Found(i) => Found(i + 1)
    case NotFound => NotFound
    case Unsupported(i) => Unsupported(i + 1)
  }

  /** A window the scan passes over: ineligible, or eligible and not matching. */
  predicate Passed(fold: char -> char, regex: seq<char>, appId: nat, w: WindowRec) {
    Eligible(w) ==> MatchWindow(fold, regex, appId, w) == Some(false)
  }

  /** The enumeration: windows are examined left to right and the scan stops
      at the first eligible window that matches (Found) or at which the regex
      cannot be applied (Unsupported). */
  function Locate(fold: char -> char, regex: seq<char>, appId: nat, ws: seq<WindowRec>): (r: Located)
    ensures r.Found? ==> r.index < |ws| && Eligible(ws[r.index]) && MatchWindow(fold, regex, appId, ws[r.index]) == Some(true)
    ensures r.Unsupported? ==> r.index < |ws| && Eligible(ws[r.index]) && MatchWindow(fold, regex, appId, ws[r.index]) == None
    ensures !r.NotFound? ==> forall j :: 0 <= j < r.index ==> Passed(fold, regex, appId, ws[j])
    ensures r.NotFound? <==> forall j :: 0 <= j < |ws| ==> Passed(fold, regex, appId, ws[j])
  {
    if ws == [] then NotFound
    else if Eligible(ws[0]) && MatchWindow(fold, regex, appId, ws[0]) == Some(true) then Found(0)
    else if Eligible(ws[0]) && MatchWindow(fold, regex, appId, ws[0]) == None then Unsupported(0)
    else
      var r := Locate(fold, regex, appId, ws[1..]);
      assert forall j :: 1 <= j < |ws| ==> ws[j] == ws[1..][j - 1];
      Shift(r)
  }

  /** No window after the one the scan stops at is examined: appending
      windows leaves a stopped scan's outcome unchanged, and a scan that
      finds nothing continues into the appended windows. */
  lemma {:induction false} LocateStopsEarly(fold: char -> char, regex: seq<char>, appId: nat, ws: seq<WindowRec>, more: seq<WindowRec>)
    ensures !Locate(fold, regex, appId, ws).NotFound? ==> Locate(fold, regex, appId, ws + more) == Locate(fold, regex, appId, ws)
    ensures Locate(fold, regex, appId, ws).NotFound? ==>
      Locate(fold, regex, appId, ws + more) == ShiftBy(Locate(fold, regex, appId, more), |ws|)
  {
    if ws == [] {
      assert ws + more == more;
      ShiftByZero(Locate(fold, regex, appId, more));
    } else {
      assert (ws + more)[0] == ws[0];
      assert (ws + more)[1..] == ws[1..] + more;
      LocateStopsEarly(fold, regex, appId, ws[1..], more);
      ShiftBySucc(Locate(fold, regex, appId, more), |ws| - 1);
    }
  }

  function ShiftBy(r: Located, k: nat): Located {
    match r
    case Found(i) => Found(i + k)
    case NotFound => NotFound
    case Unsupported(i) => Unsupported(i + k)
  }

  lemma ShiftByZero(r: Located)
    ensures ShiftBy(r, 0) == r
  {
  }

  lemma ShiftBySucc(r: Located, k: nat)
    ensures Shift(ShiftBy(r, k)) == ShiftBy(r, k + 1)
  {
  }

  /** The first window a clean pattern selects: eligible, and its normalised
      title matches the wildcard, or its process id or handle is the id. */
  predicate Selects(fold: char -> char, p: seq<char>, appId: nat, w: WindowRec) {
    Eligible(w) && (GlobMatch(fold, p, Normalise(w.title)) || w.pid == appId || w.hwnd == appId)
  }

  /** For a clean pattern, the scan never meets an unsupported regex and
      finds exactly the first window the wildcard or the id selects. */
  lemma LocateByWildcard(fold: char -> char, p: seq<char>, appId: nat, ws: seq<WindowRec>)
    requires Clean(p)
    ensures !Locate(fold, Translate(p), appId, ws).Unsupported?
    ensures Locate(fold, Translate(p), appId, ws).Found? <==> exists i :: 0 <= i < |ws| && Selects(fold, p, appId, ws[i])
    ensures Locate(fold, Translate(p), appId, ws).Found? ==>
      var i := Locate(fold, Translate(p), appId, ws).index;
      Selects(fold, p, appId, ws[i]) && forall j :: 0 <= j < i ==> !Selects(fold, p, appId, ws[j])
  {
    forall w: WindowRec
      ensures MatchWindow(fold, Translate(p), appId, w) == Some(GlobMatch(fold, p, Normalise(w.title)) || w.pid == appId || w.hwnd == appId)
    {
      MatchByWildcard(fold, p, appId, w);
    }
  }

  /** For a clean pattern, a window matches exactly when its normalised
      title glob-matches the pattern or its process id or handle is the id. */
  lemma MatchByWildcard(fold: char -> char, p: seq<char>, appId: nat, w: WindowRec)
    requires Clean(p)
    ensures MatchWindow(fold, Translate(p), appId, w) == Some(GlobMatch(fold, p, Normalise(w.title)) || w.pid == appId || w.hwnd == appId)
  {
    TranslateMeaning(fold, p, Normalise(w.title));
  }

  /** One line of the enumerate-mode listing. */
  datatype Listing = Listing(rect: Rect, hwnd: u64, pid: u32, text: seq<char>)

  function ListingOf(w: WindowRec): Listing {
    Listing(w.rect, w.hwnd, w.pid, Normalise(w.title))
  }

  /** Enumerate mode: every eligible window, in enumeration order, with its
      normalised title; no window is matched and the scan never stops early. */
  function ListWindows(ws: seq<WindowRec>): (r: seq<Listing>)
    ensures |r| <= |ws|
    ensures forall k :: 0 <= k < |r| ==> exists j :: 0 <= j < |ws| && Eligible(ws[j]) && r[k] == ListingOf(ws[j])
    ensures forall j :: 0 <= j < |ws| && Eligible(ws[j]) ==> ListingOf(ws[j]) in r
  {
    if ws == [] then []
    else
      var rest := ListWindows(ws[1..]);
      assert forall j :: 1 <= j < |ws| ==> ws[j] == ws[1..][j - 1];
      if Eligible(ws[0]) then [ListingOf(ws[0])] + rest else rest
  }

  /** The listing of a concatenation is the concatenation of the listings. */
  lemma {:induction false} ListWindowsAppend(ws: seq<WindowRec>, more: seq<WindowRec>)
    ensures ListWindows(ws + more) == ListWindows(ws) + ListWindows(more)
  {
    if ws == [] {
      assert ws + more == more;
    } else {
      assert (ws + more)[0] == ws[0];
      assert (ws + more)[1..] == ws[1..] + more;
      ListWindowsAppend(ws[1..], more);
    }
  }

  /** A source rectangle on the screen: origin and extent. */
  datatype Region = Region(x: int, y: int, width: int, height: int)

  function RegionRect(r: Region): Rect {
    Rect(r.x, r.y, r.x + r.width, r.y + r.height)
  }

  /** The region copied from the screen: the whole window rectangle when the
      whole window is asked for or the client rectangle cannot be read, and
      otherwise the client area, whose size is the client rectangle's
      right/bottom (its left/top are zero) placed at the client origin's
      screen position. */
  function CaptureRegion(wholeWindow: bool, w: WindowRec): (r: Region)
    ensures (wholeWindow || w.clientRect.None?) ==> RegionRect(r) == w.rect
    ensures !wholeWindow && w.clientRect.Some? ==>
      RegionRect(r) == Rect(w.clientOrigin.x, w.clientOrigin.y,
                            w.clientOrigin.x + w.clientRect.value.right, w.clientOrigin.y + w.clientRect.value.bottom)
  {
    if !wholeWindow && w.clientRect.Some? then
      Region(w.clientOrigin.x, w.clientOrigin.y, w.clientRect.value.right, w.clientRect.value.bottom)
    else
      Region(w.rect.left, w.rect.top, w.rect.right - w.rect.left, w.rect.bottom - w.rect.top)
  }

  /** A window that fails any eligibility test is skipped by both modes: the
      tracking scan moves on to the next window, and the listing omits it. */
  lemma IneligibleIgnored(fold: char -> char, regex: seq<char>, appId: nat, w: WindowRec, ws: seq<WindowRec>)
    requires !Eligible(w)
    ensures Locate(fold, regex, appId, [w] + ws) == Shift(Locate(fold, regex, appId, ws))
    ensures ListWindows([w] + ws) == ListWindows(ws)
  {
    assert ([w] + ws)[0] == w && ([w] + ws)[1..] == ws;
  }
}
