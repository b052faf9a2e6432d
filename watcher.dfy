/** `watch` (server.ts): resolves the watched directory into the options,
    then hands the last path of every `modify` event to the (debounced)
    `syncFile`. The stream of file-system events is an input. */
module Watcher {
  import opened Wrappers

  /** The kinds of event `Deno.watchFs` reports. */
  datatype EventKind = Any | Access | Create | Modify | Remove | Other

  datatype FsEvent = FsEvent(kind: EventKind, paths: seq<string>)

  /** A call of the debounced `syncFile`: the watched directory in the
      options and the path passed, `None` for the `undefined` read from an
      event without paths. */
  datatype SyncCall = SyncCall(watchDir: string, filepath: Option<string>)

  /** `event.paths[event.paths.length - 1]`. */
  function LastPath(paths: seq<string>): Option<string> {
    if paths == [] then None else Some(paths[|paths| - 1])
  }

  /** The calls one event leads to: one for a `modify` event, none otherwise. */
  function DispatchOne(watchDir: string, e: FsEvent): seq<SyncCall> {
    if e.kind == Modify then [SyncCall(watchDir, LastPath(e.paths))] else []
  }

  /** The calls a stream of events leads to, in order. */
  function Dispatched(watchDir: string, events: seq<FsEvent>): seq<SyncCall> {
    if events == [] then []
    else DispatchOne(watchDir, events[0]) + Dispatched(watchDir, events[1..])
  }

  lemma {:induction false} DispatchedAppend(watchDir: string, a: seq<FsEvent>, b: seq<FsEvent>)
    ensures Dispatched(watchDir, a + b) == Dispatched(watchDir, a) + Dispatched(watchDir, b)
  {
    if a == [] {
      assert a + b == b;
    } else {
      var e, rest := a[0], a[1..];
      assert a == [e] + rest;
      assert a + b == [e] + (rest + b);
      DispatchedCons(watchDir, e, rest + b);
      DispatchedCons(watchDir, e, rest);
      DispatchedAppend(watchDir, rest, b);
    }
  }

  lemma DispatchedCons(watchDir: string, e: FsEvent, rest: seq<FsEvent>)
    ensures Dispatched(watchDir, [e] + rest) == DispatchOne(watchDir, e) + Dispatched(watchDir, rest)
  {
    assert ([e] + rest)[1..] == rest;
  }

  /** An event of any kind but `modify` leads to no call. */
  lemma OnlyModifyDispatches(watchDir: string, events: seq<FsEvent>, e: FsEvent)
    ensures e.kind != Modify ==> Dispatched(watchDir, events + [e]) == Dispatched(watchDir, events)
    ensures e.kind == Modify ==>
      Dispatched(watchDir, events + [e]) == Dispatched(watchDir, events) + [SyncCall(watchDir, LastPath(e.paths))]
  {
    DispatchedAppend(watchDir, events, [e]);
    assert [e][1..] == [];
  }

  /** The `modify` events of a stream, in order. */
  function ModifyEvents(events: seq<FsEvent>): (m: seq<FsEvent>)
    ensures forall k :: 0 <= k < |m| ==> m[k].kind == Modify
  {
    if events == [] then []
    else (if events[0].kind == Modify then [events[0]] else []) + ModifyEvents(events[1..])
  }

  /** The calls are exactly one per `modify` event, in the same order, each
      with the event's last path and the watched directory. */
  lemma {:induction false} DispatchedPerModify(watchDir: string, events: seq<FsEvent>)
    ensures var m := ModifyEvents(events);
      var calls := Dispatched(watchDir, events);
      |calls| == |m| && forall k :: 0 <= k < |m| ==> calls[k] == SyncCall(watchDir, LastPath(m[k].paths))
  {
    if events != [] {
      DispatchedPerModify(watchDir, events[1..]);
    }
  }

  /** The options object `watch` is given. */
  class WatchOptions {
    var watchDir: string
    var apiToken: string
    var apiHost: string
    var apiPort: int

    constructor(watchDir: string, apiToken: string, apiHost: string, apiPort: int)
      ensures this.watchDir == watchDir && this.apiToken == apiToken
      ensures this.apiHost == apiHost && this.apiPort == apiPort
    {
      this.watchDir := watchDir;
      this.apiToken := apiToken;
      this.apiHost := apiHost;
      this.apiPort := apiPort;
    }
  }

  /** `watch`, over the events the watcher delivers: line 192 overwrites the
      watched directory with its resolved form (given here), then the loop
      of lines 196-201 dispatches one call per `modify` event. */
  method Watch(options: WatchOptions, resolvedDir: string, events: seq<FsEvent>) returns (calls: seq<SyncCall>)
    modifies options
    ensures options.watchDir == resolvedDir
    ensures options.apiToken == old(options.apiToken) && options.apiHost == old(options.apiHost)
    ensures options.apiPort == old(options.apiPort)
    ensures calls == Dispatched(resolvedDir, events)
  {
    options.watchDir := resolvedDir;
    calls := [];
    var i := 0;
    while i < |events|
      invariant 0 <= i <= |events|
      invariant options.watchDir == resolvedDir
      invariant options.apiToken == old(options.apiToken) && options.apiHost == old(options.apiHost)
      invariant options.apiPort == old(options.apiPort)
      invariant calls == Dispatched(resolvedDir, events[..i])
    {
      var event := events[i];
      if event.kind == Modify {
        calls := calls + [SyncCall(options.watchDir, LastPath(event.paths))];
      }
      OnlyModifyDispatches(resolvedDir, events[..i], event);
      assert events[..i + 1] == events[..i] + [event];
      i := i + 1;
    }
    assert events[..|events|] == events;
  }
}
