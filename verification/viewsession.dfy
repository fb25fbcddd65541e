/**
 * The browser-session view de-duplication of the frontend: the set of bolsas already
 * viewed in this session, and the page effect that counts a bolsa's view only the first
 * time its details are opened. The set is a JavaScript Set, kept here as the sequence
 * of its elements in insertion order (the order Array.from reports).
 */
module ViewSession {
  import opened Text

  datatype Session = Session(sessionId: string, startTime: int, viewed: seq<string>)

  /** A Set holds each element once. */
  predicate Distinct(s: seq<string>) {
    forall i, j :: 0 <= i < j < |s| ==> s[i] != s[j]
  }

  predicate Valid(s: Session) {
    Distinct(s.viewed)
  }

  /** hasViewedBolsa */
  function HasViewed(s: Session, bolsa: string): (r: bool)
    ensures r <==> exists i :: 0 <= i < |s.viewed| && s.viewed[i] == bolsa
  {
    bolsa in s.viewed
  }

  /**
   * markBolsaAsViewed: true exactly when the bolsa was not yet in the set; afterwards
   * it is, and nothing else changed.
   */
  function MarkViewed(s: Session, bolsa: string): (r: (Session, bool))
    ensures r.1 <==> !HasViewed(s, bolsa)
    ensures HasViewed(r.0, bolsa)
    ensures forall x :: HasViewed(r.0, x) <==> HasViewed(s, x) || x == bolsa
    ensures r.0.sessionId == s.sessionId && r.0.startTime == s.startTime
    ensures Valid(s) ==> Valid(r.0)
  {
    if bolsa in s.viewed then (s, false)
    else (s.(viewed := s.viewed + [bolsa]), true)
  }

  /** clearViewedBolsas */
  function ClearViewed(s: Session): (r: Session)
    ensures forall x :: !HasViewed(r, x)
    ensures Valid(r) && r.sessionId == s.sessionId && r.startTime == s.startTime
  {
    s.(viewed := [])
  }

  /** A second mark of the same bolsa reports that it was already viewed. */
  lemma MarkTwice(s: Session, bolsa: string)
    ensures !MarkViewed(MarkViewed(s, bolsa).0, bolsa).1
  {
  }

  /** After a clear the next mark of any bolsa is a first view again. */
  lemma MarkAfterClear(s: Session, bolsa: string)
    ensures MarkViewed(ClearViewed(s), bolsa).1
  {
  }

  // ---------------------------------------------------------------------------
  // getSessionStats and formatDuration

  /** The distinct elements of a sequence number as many as its positions. */
  lemma {:induction false} DistinctCard(s: seq<string>)
    requires Distinct(s)
    ensures |set x | x in s| == |s|
  {
    if s != [] {
      var t := s[..|s| - 1];
      assert Distinct(t);
      DistinctCard(t);
      assert s == t + [s[|s| - 1]];
      assert s[|s| - 1] !in t;
      assert (set x | x in s) == (set x | x in t) + {s[|s| - 1]};
    }
  }

  datatype Stats = Stats(sessionId: string, duration: int, durationFormatted: string, viewedCount: nat, viewedBolsas: seq<string>)

  /** getSessionStats at the clock reading now. */
  function SessionStats(s: Session, now: int): (r: Stats)
    requires Valid(s)
    ensures r.viewedCount == |set x | x in s.viewed|
    ensures forall x :: x in r.viewedBolsas <==> HasViewed(s, x)
    ensures r.duration == now - s.startTime && r.durationFormatted == FormatDuration(now - s.startTime)
  {
    DistinctCard(s.viewed);
    Stats(s.sessionId, now - s.startTime, FormatDuration(now - s.startTime), |s.viewed|, s.viewed)
  }

  /** Whole minutes of whole seconds are whole minutes; whole hours likewise. */
  lemma NestedFloors(ms: int)
    ensures ms / 1000 / 60 == ms / 60000
    ensures ms / 1000 / 60 / 60 == ms / 3600000
  {
    var s := ms / 1000;
    var m := s / 60;
    var h := m / 60;
    assert ms == 1000 * s + ms % 1000;
    assert s == 60 * m + s % 60;
    assert m == 60 * h + m % 60;
    assert ms == 60000 * m + (1000 * (s % 60) + ms % 1000);
    assert ms == 3600000 * h + (60000 * (m % 60) + 1000 * (s % 60) + ms % 1000);
  }

  /**
   * formatDuration: whole hours and minutes past them when the duration reaches an hour,
   * else whole minutes and seconds past them when it reaches a minute, else whole
   * seconds. Math.floor of a millisecond count is Dafny's division by a positive number.
   */
  function FormatDuration(ms: int): (r: string)
    ensures ms >= 3600000 ==> r == IntToString(ms / 3600000) + "h " + IntToString(ms / 60000 % 60) + "m"
    ensures 60000 <= ms < 3600000 ==> r == IntToString(ms / 60000) + "m " + IntToString(ms / 1000 % 60) + "s"
    ensures ms < 60000 ==> r == IntToString(ms / 1000) + "s"
  {
    var seconds := ms / 1000;
    var minutes := seconds / 60;
    var hours := minutes / 60;
    NestedFloors(ms);
    if hours > 0 then IntToString(hours) + "h " + IntToString(minutes % 60) + "m"
    else if minutes > 0 then IntToString(minutes) + "m " + IntToString(seconds % 60) + "s"
    else IntToString(seconds) + "s"
  }

  /**
   * The printed parts recombine: hours and the minutes past them give the whole minutes,
   * minutes and the seconds past them the whole seconds.
   */
  lemma DurationParts(ms: int)
    requires ms >= 0
    ensures 60 * (ms / 3600000) + ms / 60000 % 60 == ms / 60000
    ensures 60 * (ms / 60000) + ms / 1000 % 60 == ms / 1000
    ensures ms / 60000 % 60 < 60 && ms / 1000 % 60 < 60
  {
    NestedFloors(ms);
  }

  // ---------------------------------------------------------------------------
  // The view effect of the index page

  /**
   * When a bolsa's details are open and it has not been viewed in this session, its
   * view is counted and it is marked. No bolsa is open when the id is empty.
   */
  function OnOpen(s: Session, selected: string): (r: (Session, bool))
    ensures r.1 <==> selected != [] && !HasViewed(s, selected)
    ensures selected != [] ==> HasViewed(r.0, selected)
    ensures forall x :: HasViewed(r.0, x) <==> HasViewed(s, x) || (x == selected && selected != [])
    ensures Valid(s) ==> Valid(r.0)
  {
    if selected != [] && !HasViewed(s, selected) then
      var m := MarkViewed(s, selected);
      (m.0, true)
    else (s, false)
  }

  /** What the user does in a session: open a bolsa's details, or clear the set. */
  datatype Event = Open(bolsa: string) | Clear

  /** The session after a run of events, and the bolsas whose views were counted, in order. */
  function Replay(s: Session, evs: seq<Event>): (Session, seq<string>)
    decreases |evs|
  {
    if evs == [] then (s, [])
    else
      var next := match evs[0]
        case Open(b) => OnOpen(s, b)
        case Clear => (ClearViewed(s), false);
      var counted := if evs[0].Open? && next.1 then [evs[0].bolsa] else [];
      var rest := Replay(next.0, evs[1..]);
      (rest.0, counted + rest.1)
  }

  predicate NoClear(evs: seq<Event>) {
    forall i :: 0 <= i < |evs| ==> evs[i].Open?
  }

  predicate Opened(evs: seq<Event>, b: string) {
    exists i :: 0 <= i < |evs| && evs[i] == Open(b)
  }

  /**
   * Without a clear, each bolsa's view is counted at most once, never for a bolsa the
   * session had already viewed, and a bolsa ends up viewed exactly when it was viewed
   * before or opened.
   */
  lemma {:induction false} CountedOnce(s: Session, evs: seq<Event>)
    requires Valid(s) && NoClear(evs)
    ensures Distinct(Replay(s, evs).1)
    ensures forall b :: b in Replay(s, evs).1 ==> !HasViewed(s, b) && b != [] && Opened(evs, b)
    ensures forall b :: HasViewed(Replay(s, evs).0, b) <==> HasViewed(s, b) || (b != [] && Opened(evs, b))
    ensures Valid(Replay(s, evs).0)
    decreases |evs|
  {
    if evs != [] {
      var b := evs[0].bolsa;
      var next := OnOpen(s, b);
      var counted := if next.1 then [b] else [];
      assert NoClear(evs[1..]);
      CountedOnce(next.0, evs[1..]);
      var rest := Replay(next.0, evs[1..]);
      assert Replay(s, evs) == (rest.0, counted + rest.1);
      forall x | x in rest.1
        ensures x !in counted
      {
        assert HasViewed(next.0, x) ==> false;
      }
      forall x | Opened(evs[1..], x)
        ensures Opened(evs, x)
      {
        var i :| 0 <= i < |evs[1..]| && evs[1..][i] == Open(x);
        assert evs[i + 1] == Open(x);
      }
      forall x | Opened(evs, x)
        ensures x == b || Opened(evs[1..], x)
      {
        var i :| 0 <= i < |evs| && evs[i] == Open(x);
        if i > 0 {
          assert evs[1..][i - 1] == Open(x);
        }
      }
      assert Opened(evs, b) by {
        assert evs[0] == Open(b);
      }
    }
  }
}
