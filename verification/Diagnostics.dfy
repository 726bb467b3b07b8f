/** Publishing diagnostics to an editor. The server sends, per URI, lists that replace what the
    editor shows, and must clear the URIs it no longer reports. Analysis is a parameter: any
    result may come with any notification. */
module Diagnostics {
  import opened Prelude

  type Diags = seq<string>

  datatype Message = Publish(uri: string, diagnostics: Diags)

  /** What an analysis reports, by URI; a list may be empty. */
  type Analysis = map<string, Diags>

  // ----- the editor -----

  /** An editor replaces what it shows for the URI. */
  function Receive(view: map<string, Diags>, m: Message): map<string, Diags> {
    if m.diagnostics == [] then view - {m.uri} else view[m.uri := m.diagnostics]
  }

  function ReceiveAll(view: map<string, Diags>, ms: seq<Message>): (v: map<string, Diags>) {
    if ms == [] then view else Receive(ReceiveAll(view, ms[..|ms| - 1]), ms[|ms| - 1])
  }

  /** Message `i` is the last one for the URI. */
  ghost predicate IsLast(ms: seq<Message>, uri: string, i: int) {
    0 <= i < |ms| && ms[i].uri == uri && forall j :: i < j < |ms| ==> ms[j].uri != uri
  }

  /** The last list sent for a URI. */
  function LastFor(ms: seq<Message>, uri: string): (r: Option<Diags>) {
    if ms == [] then None
    else if ms[|ms| - 1].uri == uri then Some(ms[|ms| - 1].diagnostics)
    else LastFor(ms[..|ms| - 1], uri)
  }

  lemma {:induction false} LastForIff(ms: seq<Message>, uri: string, ds: Diags)
    ensures LastFor(ms, uri) == Some(ds) <==> exists i :: IsLast(ms, uri, i) && ms[i].diagnostics == ds
    ensures LastFor(ms, uri).None? <==> forall i :: 0 <= i < |ms| ==> ms[i].uri != uri
  {
    if ms != [] {
      var init, m := ms[..|ms| - 1], ms[|ms| - 1];
      LastForIff(init, uri, ds);
      if m.uri == uri {
        assert IsLast(ms, uri, |init|);
      } else {
        if i :| IsLast(init, uri, i) && init[i].diagnostics == ds {
          assert IsLast(ms, uri, i);
        }
        if i :| IsLast(ms, uri, i) && ms[i].diagnostics == ds {
          assert IsLast(init, uri, i);
        }
      }
    }
  }

  /** The reported lists that are not empty. */
  function NonEmpty(a: Analysis): map<string, Diags> {
    map u | u in a && a[u] != [] :: a[u]
  }

  /** For each URI only the last message counts. */
  lemma {:induction false} OnlyLastCounts(view: map<string, Diags>, ms: seq<Message>, uri: string)
    ensures var v := ReceiveAll(view, ms);
            match LastFor(ms, uri)
            case None => (uri in v <==> uri in view) && (uri in v ==> v[uri] == view[uri])
            case Some(ds) => (uri in v <==> ds != []) && (uri in v ==> v[uri] == ds)
  {
    if ms != [] {
      OnlyLastCounts(view, ms[..|ms| - 1], uri);
    }
  }

  lemma {:induction false} LastOfConcat(ms: seq<Message>, ns: seq<Message>, uri: string)
    ensures LastFor(ms + ns, uri) == if LastFor(ns, uri).Some? then LastFor(ns, uri) else LastFor(ms, uri)
  {
    if ns == [] {
      assert ms + ns == ms;
    } else {
      LastOfConcat(ms, ns[..|ns| - 1], uri);
      assert (ms + ns)[..|ms + ns| - 1] == ms + ns[..|ns| - 1];
    }
  }

  // ----- one publication -----

  /** The messages bring every reported URI up to date, clear every URI published before and no
      longer reported, and touch no other. */
  ghost predicate Refreshes(ms: seq<Message>, published: set<string>, result: Analysis) {
    forall uri :: LastFor(ms, uri) ==
      if uri in result then Some(result[uri]) else if uri in published then Some([]) else None
  }

  /** An editor that shows nothing but published URIs then shows exactly the new result. */
  lemma RefreshReplaces(view: map<string, Diags>, ms: seq<Message>, published: set<string>, result: Analysis)
    requires Refreshes(ms, published, result) && view.Keys <= published
    ensures ReceiveAll(view, ms) == NonEmpty(result)
  {
    var v := ReceiveAll(view, ms);
    forall uri: string
      ensures uri in v <==> uri in NonEmpty(result)
      ensures uri in v ==> v[uri] == NonEmpty(result)[uri]
    {
      OnlyLastCounts(view, ms, uri);
    }
  }

  /** Clearing one URI first makes no difference to what a refresh leaves. */
  lemma ClearThenRefresh(uri: string, ms: seq<Message>, published: set<string>, result: Analysis)
    requires Refreshes(ms, published, result)
    ensures Refreshes([Publish(uri, [])] + ms, published + {uri}, result)
  {
    forall u: string
      ensures LastFor([Publish(uri, [])] + ms, u) ==
              if u in result then Some(result[u]) else if u in published + {uri} then Some([]) else None
    {
      LastOfConcat([Publish(uri, [])], ms, u);
    }
  }

  // ----- the server -----

  datatype Event =
    | Opened(uri: string, parent: Option<string>)
    | Changed(uri: string)
    | Closed(uri: string)
    | Saved
    | Unreadable

  /** The path of a `file` URI. */
  function UriToPath(uri: string): Option<string> {
    if "file://" <= uri && uri[7..] != [] then Some(uri[7..]) else None
  }

  /** The workspace root after an event: set once, from the first opened file with a parent. */
  function RootAfter(root: Option<string>, e: Event): Option<string> {
    if root.None? && e.Opened? && UriToPath(e.uri).Some? then e.parent else root
  }

  /** The event leads to a publication. */
  predicate Publishes(root: Option<string>, e: Event) {
    && RootAfter(root, e).Some?
    && !e.Unreadable?
    && (e.Saved? || UriToPath(e.uri).Some?)
  }

  /** The event is about a file with a path: an opened, changed or closed one. */
  ghost predicate OfFile(e: Event) {
    (e.Opened? || e.Changed? || e.Closed?) && exists path: string :: path != [] && e.uri == "file://" + path
  }

  /** The event opens a file whose directory is known. */
  ghost predicate OpensIn(e: Event, parent: string) {
    e.Opened? && OfFile(e) && e.parent == Some(parent)
  }

  lemma PathOfFile(uri: string)
    ensures UriToPath(uri).Some? <==> exists path: string :: path != [] && uri == "file://" + path
    ensures UriToPath(uri).Some? ==> uri == "file://" + UriToPath(uri).value
  {
    if path: string :| path != [] && uri == "file://" + path {
      assert uri[..7] == "file://" && uri[7..] == path;
    }
    if UriToPath(uri).Some? {
      assert uri == "file://" + uri[7..];
    }
  }

  /** Exactly the saves and the events of files publish, once there is a root. */
  lemma PublishesIff(root: Option<string>, e: Event)
    ensures Publishes(root, e) <==> RootAfter(root, e).Some? && (e.Saved? || OfFile(e))
  {
    if e.Opened? || e.Changed? || e.Closed? {
      PathOfFile(e.uri);
    }
  }

  /** The root stays once it is known; before, the first opened file with a directory sets it. */
  lemma RootAfterIs(root: Option<string>, e: Event)
    ensures root.Some? ==> RootAfter(root, e) == root
    ensures root.None? ==> forall parent :: RootAfter(root, e) == Some(parent) <==> OpensIn(e, parent)
  {
    if e.Opened? {
      PathOfFile(e.uri);
    }
  }

  class LanguageServer {
    var root: Option<string>
    var publishedUris: set<string>
    /** What the editor shows once it has received every message, and the last published result. */
    ghost var shown: map<string, Diags>
    ghost var latest: Analysis

    ghost predicate Valid()
      reads this
    {
      && shown == NonEmpty(latest)
      && publishedUris == latest.Keys
      && (root.None? ==> latest == map[])
    }

    constructor ()
      ensures Valid() && root.None? && latest == map[] && shown == map[]
    {
      root, publishedUris := None, {};
      shown, latest := map[], map[];
    }

    /** Handle one notification and return the messages sent. Whatever the analysis reports, the
        editor then shows exactly the non-empty lists of the latest published result. */
    method Handle(e: Event, result: Analysis) returns (messages: seq<Message>)
      requires Valid()
      modifies this
      ensures Valid()
      ensures shown == ReceiveAll(old(shown), messages)
      ensures latest == if Publishes(old(root), e) then result else old(latest)
      ensures root == RootAfter(old(root), e)
      ensures MaySend(old(root), old(latest).Keys, Turn(e, result, messages))
      ensures root.Some? && (e.Saved? || OfFile(e)) ==> latest == result && shown == NonEmpty(result)
      ensures !(root.Some? && (e.Saved? || OfFile(e))) ==> latest == old(latest) && shown == old(shown)
      ensures old(root).Some? ==> root == old(root)
      ensures old(root).None? ==> forall parent :: root == Some(parent) <==> OpensIn(e, parent)
    {
      PublishesIff(root, e);
      RootAfterIs(root, e);
      match e
      case Opened(uri, parent) =>
        if root.None? && UriToPath(uri).Some? {
          root := parent;
        }
        if UriToPath(uri).None? {
          return [];
        }
        messages := PublishDiagnostics(result);
      case Changed(uri) =>
        if UriToPath(uri).None? {
          return [];
        }
        messages := PublishDiagnostics(result);
      case Closed(uri) =>
        if UriToPath(uri).None? {
          return [];
        }
        messages := HandleClose(uri, result);
      case Saved =>
        messages := PublishDiagnostics(result);
      case Unreadable =>
        messages := [];
    }

    method HandleClose(uri: string, result: Analysis) returns (messages: seq<Message>)
      requires Valid()
      modifies this`publishedUris, this`shown, this`latest
      ensures Valid()
      ensures shown == ReceiveAll(old(shown), messages)
      ensures latest == if root.Some? then result else old(latest)
      ensures exists more :: messages == [Publish(uri, [])] + more &&
                if root.Some? then Refreshes(more, old(latest).Keys, result) else more == []
    {
      var clear := Publish(uri, []);
      ghost var before, published := shown, publishedUris;
      var more := PublishDiagnostics(result);
      messages := [clear] + more;
      if root.Some? {
        ClearThenRefresh(uri, more, published, result);
        RefreshReplaces(before, messages, published + {uri}, result);
      }
    }

    /** Clear what is no longer reported, then publish every reported list. */
    method PublishDiagnostics(result: Analysis) returns (messages: seq<Message>)
      requires Valid()
      modifies this`publishedUris, this`shown, this`latest
      ensures Valid()
      ensures shown == ReceiveAll(old(shown), messages)
      ensures root.None? ==> messages == [] && latest == old(latest)
      ensures root.Some? ==> latest == result && Refreshes(messages, old(publishedUris), result)
    {
      messages := [];
      if root.None? {
        return;
      }
      var newUris := result.Keys;
      var stale := publishedUris;
      while stale != {}
        invariant stale <= publishedUris
        invariant forall uri :: LastFor(messages, uri) ==
                    if uri in publishedUris - stale && uri !in result then Some([]) else None
        modifies {}
      {
        var uri :| uri in stale;
        stale := stale - {uri};
        if uri !in newUris {
          messages := messages + [Publish(uri, [])];
        }
      }
      var pending := newUris;
      while pending != {}
        invariant pending <= newUris
        invariant forall uri :: LastFor(messages, uri) ==
                    if uri in newUris - pending then Some(result[uri])
                    else if uri in publishedUris && uri !in result then Some([]) else None
        modifies {}
      {
        var uri :| uri in pending;
        pending := pending - {uri};
        messages := messages + [Publish(uri, result[uri])];
      }
      RefreshReplaces(shown, messages, publishedUris, result);
      publishedUris := newUris;
      shown := NonEmpty(result);
      latest := result;
    }
  }

  // ----- whole sessions -----

  /** One handled notification: the event, the analysis that came with it and the messages sent. */
  datatype Turn = Turn(event: Event, result: Analysis, messages: seq<Message>)

  function RootsAfter(turns: seq<Turn>): Option<string> {
    if turns == [] then None else RootAfter(RootsAfter(turns[..|turns| - 1]), turns[|turns| - 1].event)
  }

  /** The result of the last publication. */
  function LatestAfter(turns: seq<Turn>): Analysis {
    if turns == [] then map[]
    else
      var init, t := turns[..|turns| - 1], turns[|turns| - 1];
      if Publishes(RootsAfter(init), t.event) then t.result else LatestAfter(init)
  }

  /** The messages of a turn are what the server may send: nothing, a refresh, or for a closed file
      a clearing message first. */
  ghost predicate MaySend(root: Option<string>, published: set<string>, t: Turn) {
    if t.event.Closed? && UriToPath(t.event.uri).Some? then
      exists more :: t.messages == [Publish(t.event.uri, [])] + more &&
        if root.Some? then Refreshes(more, published, t.result) else more == []
    else if Publishes(root, t.event) then Refreshes(t.messages, published, t.result)
    else t.messages == []
  }

  ghost predicate IsSession(turns: seq<Turn>) {
    forall i :: 0 <= i < |turns| ==>
      MaySend(RootsAfter(turns[..i]), LatestAfter(turns[..i]).Keys, turns[i])
  }

  function Sent(turns: seq<Turn>): seq<Message> {
    if turns == [] then [] else Sent(turns[..|turns| - 1]) + turns[|turns| - 1].messages
  }

  lemma {:induction false} ReceiveInTwo(view: map<string, Diags>, ms: seq<Message>, ns: seq<Message>)
    ensures ReceiveAll(view, ms + ns) == ReceiveAll(ReceiveAll(view, ms), ns)
  {
    if ns == [] {
      assert ms + ns == ms;
    } else {
      ReceiveInTwo(view, ms, ns[..|ns| - 1]);
      assert (ms + ns)[..|ms + ns| - 1] == ms + ns[..|ns| - 1];
    }
  }

  lemma {:induction false} NoRootNothingPublished(turns: seq<Turn>)
    requires RootsAfter(turns).None?
    ensures LatestAfter(turns) == map[]
  {
    if turns != [] {
      NoRootNothingPublished(turns[..|turns| - 1]);
    }
  }

  /** One turn takes the editor from one publication to the next. */
  lemma TurnShowsLatest(root: Option<string>, latest: Analysis, t: Turn)
    requires MaySend(root, latest.Keys, t) && (root.None? ==> latest == map[])
    ensures ReceiveAll(NonEmpty(latest), t.messages) ==
            NonEmpty(if Publishes(root, t.event) then t.result else latest)
  {
    hide Refreshes;
    var view := NonEmpty(latest);
    if t.event.Closed? && UriToPath(t.event.uri).Some? {
      var more :| t.messages == [Publish(t.event.uri, [])] + more &&
        if root.Some? then Refreshes(more, latest.Keys, t.result) else more == [];
      if root.Some? {
        ClearThenRefresh(t.event.uri, more, latest.Keys, t.result);
        RefreshReplaces(view, t.messages, latest.Keys + {t.event.uri}, t.result);
      } else {
        assert t.messages == [Publish(t.event.uri, [])] && t.messages[..0] == [];
      }
    } else if Publishes(root, t.event) {
      RefreshReplaces(view, t.messages, latest.Keys, t.result);
    }
  }

  /** After any session the editor shows exactly the non-empty lists of the latest publication. */
  lemma {:induction false} SessionShowsLatest(turns: seq<Turn>)
    requires IsSession(turns)
    ensures ReceiveAll(map[], Sent(turns)) == NonEmpty(LatestAfter(turns))
  {
    hide MaySend, Publishes;
    if turns != [] {
      var init, t := turns[..|turns| - 1], turns[|turns| - 1];
      forall i | 0 <= i < |init|
        ensures MaySend(RootsAfter(init[..i]), LatestAfter(init[..i]).Keys, init[i])
      {
        assert init[..i] == turns[..i];
      }
      SessionShowsLatest(init);
      ReceiveInTwo(map[], Sent(init), t.messages);
      if RootsAfter(init).None? {
        NoRootNothingPublished(init);
      }
      assert MaySend(RootsAfter(init), LatestAfter(init).Keys, t);
      TurnShowsLatest(RootsAfter(init), LatestAfter(init), t);
    }
  }

  lemma SessionGrows(turns: seq<Turn>, t: Turn)
    requires IsSession(turns) && MaySend(RootsAfter(turns), LatestAfter(turns).Keys, t)
    ensures IsSession(turns + [t])
    ensures RootsAfter(turns + [t]) == RootAfter(RootsAfter(turns), t.event)
    ensures LatestAfter(turns + [t]) == if Publishes(RootsAfter(turns), t.event) then t.result else LatestAfter(turns)
  {
    hide MaySend, Publishes, RootAfter;
    var all := turns + [t];
    assert all[..|turns|] == turns;
    forall i | 0 <= i < |all|
      ensures MaySend(RootsAfter(all[..i]), LatestAfter(all[..i]).Keys, all[i])
    {
      if i < |turns| {
        assert all[..i] == turns[..i];
      }
    }
  }

  /** If the session has a root and its last event is a save or concerns a file, the editor shows the
      result that came with it. */
  lemma LastEventIsShown(turns: seq<Turn>)
    requires IsSession(turns) && turns != [] && RootsAfter(turns).Some?
    requires turns[|turns| - 1].event.Saved? || OfFile(turns[|turns| - 1].event)
    ensures ReceiveAll(map[], Sent(turns)) == NonEmpty(turns[|turns| - 1].result)
  {
    hide IsSession, OfFile, ReceiveAll;
    SessionShowsLatest(turns);
    PublishesIff(RootsAfter(turns[..|turns| - 1]), turns[|turns| - 1].event);
  }

  /** Turn `i` is the first that opens a file whose directory is known. */
  ghost predicate FirstOpens(turns: seq<Turn>, i: nat, parent: string) {
    && i < |turns| && OpensIn(turns[i].event, parent)
    && forall j, p :: 0 <= j < i ==> !OpensIn(turns[j].event, p)
  }

  /** The root is the directory of the first opened file that has one. */
  lemma {:induction false} RootIsFirstOpened(turns: seq<Turn>, parent: string)
    ensures RootsAfter(turns) == Some(parent) <==> exists i: nat :: FirstOpens(turns, i, parent)
    ensures RootsAfter(turns).None? <==> forall j, p :: 0 <= j < |turns| ==> !OpensIn(turns[j].event, p)
  {
    hide OpensIn, RootAfter;
    if turns != [] {
      var init, t := turns[..|turns| - 1], turns[|turns| - 1];
      RootIsFirstOpened(init, parent);
      RootAfterIs(RootsAfter(init), t.event);
      if i: nat :| FirstOpens(init, i, parent) {
        assert FirstOpens(turns, i, parent);
      }
      if RootsAfter(init).None? && OpensIn(t.event, parent) {
        assert FirstOpens(turns, |init|, parent);
      }
      if i: nat :| FirstOpens(turns, i, parent) {
        assert i < |init| ==> FirstOpens(init, i, parent);
      }
    }
  }

  /** A new server handles the notifications one after the other; what it sent in all leaves the
      editor with exactly the non-empty lists of the latest published result. */
  method RunSession(events: seq<Event>, results: seq<Analysis>) returns (turns: seq<Turn>)
    requires |events| == |results|
    ensures |turns| == |events|
    ensures forall i :: 0 <= i < |turns| ==> turns[i].event == events[i] && turns[i].result == results[i]
    ensures IsSession(turns) && ReceiveAll(map[], Sent(turns)) == NonEmpty(LatestAfter(turns))
    ensures turns != [] && RootsAfter(turns).Some? && (events[|events| - 1].Saved? || OfFile(events[|events| - 1])) ==>
              ReceiveAll(map[], Sent(turns)) == NonEmpty(results[|results| - 1])
  {
    hide MaySend, RootsAfter, LatestAfter, RootAfter, Publishes, IsSession;
    turns := [];
    EmptySession();
    var server := new LanguageServer();
    for i := 0 to |events|
      invariant |turns| == i
      invariant forall j :: 0 <= j < i ==> turns[j].event == events[j] && turns[j].result == results[j]
      invariant fresh(server) && server.Valid() && IsSession(turns)
      invariant server.root == RootsAfter(turns) && server.latest == LatestAfter(turns)
    {
      var messages := server.Handle(events[i], results[i]);
      var turn := Turn(events[i], results[i], messages);
      SessionGrows(turns, turn);
      turns := turns + [turn];
    }
    SessionShowsLatest(turns);
    if turns != [] && RootsAfter(turns).Some? && (events[|events| - 1].Saved? || OfFile(events[|events| - 1])) {
      LastEventIsShown(turns);
    }
  }

  lemma EmptySession()
    ensures IsSession([]) && RootsAfter([]).None? && LatestAfter([]) == map[]
  {
  }
}
