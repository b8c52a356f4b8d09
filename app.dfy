/**
 * The shell application object: its connection flag and list of remote
 * files, the task switcher, the two registries of running tasks, and the
 * requests it makes of the host (run a command, show or remove a window,
 * launch or kill a package). Widgets, animations and bubbles are not
 * modelled; windows are numbers and host requests are appended to
 * `effects`.
 */
module MobileApp {
  import opened Wrappers
  import Json
  import Paths
  import Vigia
  import AppletRouting
  import opened TaskRegistry

  /** A request the app makes of the device, in the order made. */
  datatype Effect =
    | RunLocally(command: string)
    | ShowWindow(window: Window)
    | RaiseWindow(window: Window)
    | RemoveWindow(window: Window)
    | LaunchIntent(package: string)
    | KillProcess(package: string)
    | ScheduleSwitcherToggle

  /** What loading an app's entry file does: it lacks `get_widget`, raises,
      or yields the app's content. */
  datatype LoadResult = NoGetWidget | LoadFailed | Loaded

  datatype LaunchOutcome = EntryMissing | Resumed | MissingGetWidget | Crashed | Started

  /** The windows removed, in registry order, for the tasks `keys`. */
  function Removals(d: Dict<InternalTask>, keys: seq<string>): (r: seq<Effect>)
    requires forall k :: k in keys ==> k in d.values
    ensures |r| == |keys|
    ensures forall i :: 0 <= i < |keys| ==> r[i] == RemoveWindow(d.values[keys[i]].window)
    decreases |keys|
  {
    if keys == [] then []
    else Removals(d, keys[..|keys| - 1]) + [RemoveWindow(d.values[keys[|keys| - 1]].window)]
  }

  /** The kill requests, in registry order, for the packages `keys`. */
  function Kills(keys: seq<string>): (r: seq<Effect>)
    ensures |r| == |keys|
    ensures forall i :: 0 <= i < |keys| ==> r[i] == KillProcess(keys[i])
    decreases |keys|
  {
    if keys == [] then []
    else Kills(keys[..|keys| - 1]) + [KillProcess(keys[|keys| - 1])]
  }

  class App {
    const network: Vigia.Client
    /** `platform == 'android'` */
    const onAndroid: bool
    var isConnected: bool
    var remoteFiles: Json.Value
    var switcherOpen: bool
    var internalApps: Dict<InternalTask>
    var androidApps: Dict<AndroidTask>
    /** The number the next window gets. */
    var nextWindow: Window
    var effects: seq<Effect>

    ghost predicate Valid()
      reads this
    {
      TaskRegistry.Valid(internalApps) && TaskRegistry.Valid(androidApps)
    }

    constructor (network: Vigia.Client, onAndroid: bool)
      ensures Valid()
      ensures this.network == network && this.onAndroid == onAndroid
      ensures !isConnected && remoteFiles == Json.JArr([]) && !switcherOpen
      ensures internalApps.values == map[] && androidApps.values == map[]
      ensures effects == []
    {
      this.network := network;
      this.onAndroid := onAndroid;
      isConnected := false;
      remoteFiles := Json.JArr([]);
      switcherOpen := false;
      internalApps := EmptyDict();
      androidApps := EmptyDict();
      nextWindow := 0;
      effects := [];
    }

    // -----------------------------------------------------------------
    // Applet drops

    /**
     * `_trigger_applet_action`: route the drop with the app's connection
     * flag, then hand a heavy command to the linked computer or run the
     * command on the device. `delivered` says whether the socket write
     * succeeds.
     */
    method TriggerAppletAction(path: string, guess: Option<string>, applet: AppletRouting.Applet, delivered: bool)
      returns (outcome: AppletRouting.Outcome)
      modifies this, network
      ensures outcome == AppletRouting.Route(path, guess, applet, old(isConnected))
      ensures effects == old(effects) + (if outcome.RunLocal? then [RunLocally(outcome.command)] else [])
      ensures !outcome.RunRemote? ==> unchanged(network)
      ensures outcome.RunRemote? ==>
                var attempted := old(network.connected) && old(network.sock) != Vigia.NoSocket;
                var sent := attempted && old(network.sock) == Vigia.Open && delivered;
                && network.outbox == old(network.outbox) + (if sent then [outcome.request] else [])
                && network.connected == (old(network.connected) && (!attempted || sent))
                && network.scheduled == old(network.scheduled) + (if attempted && !sent then [Vigia.ConnectionLost] else [])
                && network.sock == old(network.sock) && network.ip == old(network.ip)
                && network.listeners == old(network.listeners)
      ensures unchanged(this`isConnected, this`remoteFiles, this`switcherOpen, this`internalApps,
                        this`androidApps, this`nextWindow)
    {
      outcome := AppletRouting.Route(path, guess, applet, isConnected);
      match outcome {
        case Rejected(_) =>
        case RunRemote(request) =>
          network.SendCommand(request, delivered);
        case RunLocal(command) =>
          effects := effects + [RunLocally(command)];
      }
    }

    // -----------------------------------------------------------------
    // The link to the computer

    /** `on_connection_lost`: the flag drops and the remote file list empties. */
    method OnConnectionLost()
      modifies this
      ensures !isConnected && remoteFiles == Json.JArr([])
      ensures unchanged(this`switcherOpen, this`internalApps, this`androidApps, this`nextWindow, this`effects)
    {
      isConnected := false;
      remoteFiles := Json.JArr([]);
    }

    /**
     * `update_remote_files`: the list is replaced wholesale. `len(files)`
     * raises for a number, a boolean or null, and the list-valued
     * `remote_files` refuses a string or an object, so only an array is
     * stored; `stored` is false when the call raises.
     */
    method UpdateRemoteFiles(files: Json.Value) returns (stored: bool)
      modifies this
      ensures stored <==> files.JArr?
      ensures remoteFiles == if stored then files else old(remoteFiles)
      ensures unchanged(this`isConnected, this`switcherOpen, this`internalApps, this`androidApps,
                        this`nextWindow, this`effects)
    {
      if !files.JArr? {
        return false;
      }
      remoteFiles := files;
      stored := true;
    }

    /**
     * Run one call the receive loop scheduled: a message goes through
     * `process_message` (a file list replaces the remote files, a change
     * notice asks for a new listing), the end of the loop runs
     * `on_connection_lost`. `delivered` says whether a listing request
     * reaches the socket. `raised` says whether the call ends in an
     * exception: `msg.get` on a message that is not an object, or a `files`
     * value that is not a list.
     */
    method RunCallback(cb: Vigia.Callback, delivered: bool) returns (raised: bool)
      modifies this, network
      ensures raised <==> cb.Dispatch? && (Vigia.ProcessMessage(cb.msg).NotAnObject? ||
                                           (Vigia.ProcessMessage(cb.msg).ReplaceRemoteFiles? &&
                                            !Vigia.ProcessMessage(cb.msg).files.JArr?))
      ensures cb.ConnectionLost? ==> !isConnected && remoteFiles == Json.JArr([]) && unchanged(network)
      ensures cb.Dispatch? && Vigia.ProcessMessage(cb.msg).ReplaceRemoteFiles? ==>
                && remoteFiles == (if raised then old(remoteFiles) else Vigia.ProcessMessage(cb.msg).files)
                && isConnected == old(isConnected)
                && unchanged(network)
      ensures cb.Dispatch? && Vigia.ProcessMessage(cb.msg).RequestListing? ==>
                var attempted := old(network.connected) && old(network.sock) != Vigia.NoSocket;
                var sent := attempted && old(network.sock) == Vigia.Open && delivered;
                && network.outbox == old(network.outbox) + (if sent then [Vigia.ListingRequest()] else [])
                && network.connected == (old(network.connected) && (!attempted || sent))
                && network.scheduled == old(network.scheduled) + (if attempted && !sent then [Vigia.ConnectionLost] else [])
                && network.sock == old(network.sock) && network.ip == old(network.ip)
                && network.listeners == old(network.listeners)
                && unchanged(this`isConnected, this`remoteFiles)
      ensures cb.Dispatch? && (Vigia.ProcessMessage(cb.msg).Ignore? || Vigia.ProcessMessage(cb.msg).NotAnObject?) ==>
                unchanged(network) && unchanged(this`isConnected, this`remoteFiles)
      ensures unchanged(this`switcherOpen, this`internalApps, this`androidApps, this`nextWindow, this`effects)
    {
      raised := false;
      match cb {
        case ConnectionLost =>
          OnConnectionLost();
        case Dispatch(msg) =>
          var reaction := Vigia.ProcessMessage(msg);
          match reaction {
            case ReplaceRemoteFiles(files) =>
              var stored := UpdateRemoteFiles(files);
              raised := !stored;
            case RequestListing =>
              network.SendCommand(Vigia.ListingRequest(), delivered);
            case Ignore =>
            case NotAnObject =>
              raised := true;
          }
      }
    }

    /**
     * `toggle_vigia_connection`: when linked, drop the link; otherwise, with
     * a PIN given, run the handshake and raise the flag only if it succeeds.
     */
    method ToggleVigiaConnection(ipText: string, pinText: string, handshake: Vigia.Handshake)
      modifies this, network
      ensures old(isConnected) ==>
                && !isConnected && !network.connected && remoteFiles == Json.JArr([])
                && network.sock == old(network.sock) && network.ip == old(network.ip)
                && network.outbox == old(network.outbox) && network.scheduled == old(network.scheduled)
                && network.listeners == old(network.listeners)
      ensures !old(isConnected) && pinText == [] ==> unchanged(this) && unchanged(network)
      ensures !old(isConnected) && pinText != [] ==>
                && isConnected == Vigia.Accepted(handshake) && remoteFiles == old(remoteFiles)
                && network.ip == Some(ipText)
                && network.outbox == old(network.outbox)
                                     + (if handshake.ConnectFailed? then [] else [Vigia.AuthRequest(pinText)])
                && network.scheduled == old(network.scheduled)
                && (Vigia.Accepted(handshake) ==>
                      network.connected && network.sock == Vigia.Open && network.listeners == old(network.listeners) + 1)
                && (Vigia.Refused(handshake) ==>
                      network.connected == old(network.connected) && network.sock == Vigia.Unusable)
                && (!Vigia.Accepted(handshake) && !Vigia.Refused(handshake) ==>
                      !network.connected
                      && network.sock == if handshake.ConnectFailed? then Vigia.Unusable else Vigia.Open)
                && (!Vigia.Accepted(handshake) ==> network.listeners == old(network.listeners))
      ensures unchanged(this`switcherOpen, this`internalApps, this`androidApps, this`nextWindow, this`effects)
    {
      if isConnected {
        network.connected := false;
        OnConnectionLost();
      } else if pinText != [] {
        var ok := network.Connect(ipText, pinText, handshake);
        if ok {
          isConnected := true;
        }
      }
    }

    // -----------------------------------------------------------------
    // The task switcher and the registries

    /** `toggle_task_switcher`: open the switcher if closed, close it if open. */
    method ToggleTaskSwitcher()
      modifies this
      ensures switcherOpen == !old(switcherOpen)
      ensures unchanged(this`isConnected, this`remoteFiles, this`internalApps, this`androidApps,
                        this`nextWindow, this`effects)
    {
      switcherOpen := !switcherOpen;
    }

    /**
     * The registration part of `launch_dynamic_widget`. `existing` is the
     * set of paths that exist, `load` what running the entry file does and
     * `now` the clock reading. A running app is resumed, a loaded one gets a
     * new window and is registered under `appId`.
     */
    method LaunchDynamicWidget(appPath: string, entryPoint: string, appId: string,
                               manifest: map<string, Json.Value>, existing: set<string>,
                               load: LoadResult, now: int)
      returns (outcome: LaunchOutcome)
      requires Valid()
      modifies this
      ensures Valid()
      ensures Paths.Join(appPath, entryPoint) !in existing ==> outcome == EntryMissing && unchanged(this)
      ensures Paths.Join(appPath, entryPoint) in existing && appId in old(internalApps.values) ==>
                && outcome == Resumed
                && internalApps == old(internalApps)
                && switcherOpen == !old(switcherOpen)
                && (effects == old(effects) + [RaiseWindow(old(internalApps.values[appId].window))])
      ensures Paths.Join(appPath, entryPoint) in existing && appId !in old(internalApps.values) ==>
                && outcome == (match load
                                 case NoGetWidget => MissingGetWidget
                                 case LoadFailed => Crashed
                                 case Loaded => Started)
                && switcherOpen == old(switcherOpen)
      ensures outcome == Started ==>
                && internalApps == Put(old(internalApps), appId, InternalTask(old(nextWindow), manifest, now))
                && effects == old(effects) + [ShowWindow(old(nextWindow))]
                && nextWindow == old(nextWindow) + 1
      ensures outcome == MissingGetWidget || outcome == Crashed ==> unchanged(this)
      ensures unchanged(this`isConnected, this`remoteFiles, this`androidApps)
    {
      if Paths.Join(appPath, entryPoint) !in existing {
        return EntryMissing;
      }
      if appId in internalApps.values {
        TaskRefRoundTrip(InternalKind, appId);
        var _ := ResumeTask(TaskRef(InternalKind, appId));
        return Resumed;
      }
      match load {
        case NoGetWidget =>
          outcome := MissingGetWidget;
        case LoadFailed =>
          outcome := Crashed;
        case Loaded =>
          var window := nextWindow;
          nextWindow := nextWindow + 1;
          effects := effects + [ShowWindow(window)];
          internalApps := Put(internalApps, appId, InternalTask(window, manifest, now));
          outcome := Started;
      }
    }

    /** `register_android_task`: record (or re-record) a host package under
        its display name, started at `clock`. */
    method RegisterAndroidTask(pkg: string, clock: string)
      requires Valid()
      modifies this
      ensures Valid()
      ensures androidApps == Put(old(androidApps), pkg, AndroidTask(NiceName(pkg), "android", clock))
      ensures unchanged(this`isConnected, this`remoteFiles, this`switcherOpen, this`internalApps,
                        this`nextWindow, this`effects)
    {
      androidApps := Put(androidApps, pkg, AndroidTask(NiceName(pkg), "android", clock));
    }

    /**
     * `resume_task`: close or open the switcher, then bring the task back: an
     * internal app's window is raised, a host package's activity is
     * launched (only on the device). `ok` is false when the reference has no
     * ':', where the source raises after the switcher has been toggled.
     */
    method ResumeTask(ref: string) returns (ok: bool)
      requires Valid()
      modifies this
      ensures Valid()
      ensures switcherOpen == !old(switcherOpen)
      ensures ok <==> ParseTaskRef(ref).Some?
      ensures ok && ParseTaskRef(ref).value.0 == InternalKind && ParseTaskRef(ref).value.1 in old(internalApps.values) ==>
                effects == old(effects) + [RaiseWindow(old(internalApps.values[ParseTaskRef(ref).value.1].window))]
      ensures ok && ParseTaskRef(ref).value.0 == AndroidKind && onAndroid ==>
                effects == old(effects) + [LaunchIntent(ParseTaskRef(ref).value.1)]
      ensures ok && ParseTaskRef(ref).value.0 == AndroidKind && !onAndroid ==> effects == old(effects)
      ensures ok && ParseTaskRef(ref).value.0 == InternalKind && ParseTaskRef(ref).value.1 !in old(internalApps.values) ==>
                effects == old(effects)
      ensures ok && ParseTaskRef(ref).value.0 != InternalKind && ParseTaskRef(ref).value.0 != AndroidKind ==>
                effects == old(effects)
      ensures !ok ==> effects == old(effects)
      ensures unchanged(this`isConnected, this`remoteFiles, this`internalApps, this`androidApps, this`nextWindow)
    {
      ToggleTaskSwitcher();
      var parsed := ParseTaskRef(ref);
      if parsed.None? {
        return false;
      }
      var (kind, id) := parsed.value;
      if kind == InternalKind {
        if id in internalApps.values {
          effects := effects + [RaiseWindow(internalApps.values[id].window)];
        }
      } else if kind == AndroidKind {
        if onAndroid {
          effects := effects + [LaunchIntent(id)];
        }
      }
      return true;
    }

    /**
     * `kill_single_task`, with the dismissal animation taken as finished: an
     * internal app loses its window and its entry; a host package loses its
     * entry, and on the device a kill is requested even when it had none.
     * `ok` is false, and nothing happens, when the reference has no ':'.
     */
    method KillSingleTask(ref: string) returns (ok: bool)
      requires Valid()
      modifies this
      ensures Valid()
      ensures ok <==> ParseTaskRef(ref).Some?
      ensures !ok ==> unchanged(this)
      ensures ok && ParseTaskRef(ref).value.0 == InternalKind ==>
                var id := ParseTaskRef(ref).value.1;
                && internalApps.values == old(internalApps.values) - {id}
                && internalApps == (if id in old(internalApps.values) then Remove(old(internalApps), id) else old(internalApps))
                && effects == old(effects) + (if id in old(internalApps.values) then [RemoveWindow(old(internalApps.values[id].window))] else [])
                && androidApps == old(androidApps)
      ensures ok && ParseTaskRef(ref).value.0 == AndroidKind ==>
                var id := ParseTaskRef(ref).value.1;
                && androidApps.values == old(androidApps.values) - {id}
                && androidApps == (if id in old(androidApps.values) then Remove(old(androidApps), id) else old(androidApps))
                && effects == old(effects) + (if onAndroid then [KillProcess(id)] else [])
                && internalApps == old(internalApps)
      ensures ok && ParseTaskRef(ref).value.0 != InternalKind && ParseTaskRef(ref).value.0 != AndroidKind ==>
                unchanged(this)
      ensures unchanged(this`isConnected, this`remoteFiles, this`switcherOpen, this`nextWindow)
    {
      var parsed := ParseTaskRef(ref);
      if parsed.None? {
        return false;
      }
      var (kind, id) := parsed.value;
      if kind == InternalKind {
        if id in internalApps.values {
          effects := effects + [RemoveWindow(internalApps.values[id].window)];
          internalApps := Remove(internalApps, id);
        }
      } else if kind == AndroidKind {
        if id in androidApps.values {
          androidApps := Remove(androidApps, id);
        }
        if onAndroid {
          effects := effects + [KillProcess(id)];
        }
      }
      return true;
    }

    /**
     * `kill_all_tasks`: remove every internal window in registry order, ask
     * the host to kill every package in registry order (only on the
     * device), empty both registries and schedule the switcher to toggle.
     */
    method KillAllTasks()
      requires Valid()
      modifies this
      ensures Valid()
      ensures internalApps == EmptyDict() && androidApps == EmptyDict()
      ensures effects == old(effects) + Removals(old(internalApps), old(internalApps.keys))
                         + (if onAndroid then Kills(old(androidApps.keys)) else [])
                         + [ScheduleSwitcherToggle]
      ensures unchanged(this`isConnected, this`remoteFiles, this`switcherOpen, this`nextWindow)
    {
      var windows := WindowRemovals(internalApps);
      effects := effects + windows;
      internalApps := EmptyDict();
      if onAndroid {
        var kills := KillRequests(androidApps.keys);
        effects := effects + kills;
      }
      androidApps := EmptyDict();
      effects := effects + [ScheduleSwitcherToggle];
    }
  }

  /** The first loop of `kill_all_tasks`: one window removal per internal
      task, in registry order. */
  method WindowRemovals(d: Dict<InternalTask>) returns (es: seq<Effect>)
    requires TaskRegistry.Valid(d)
    ensures es == Removals(d, d.keys)
  {
    es := [];
    for i := 0 to |d.keys|
      invariant es == Removals(d, d.keys[..i])
    {
      assert d.keys[..i + 1][..i] == d.keys[..i];
      assert d.keys[i] in d.keys;
      es := es + [RemoveWindow(d.values[d.keys[i]].window)];
    }
    assert d.keys[..|d.keys|] == d.keys;
  }

  /** The second loop of `kill_all_tasks` on the device: one kill request
      per package, in registry order. */
  method KillRequests(keys: seq<string>) returns (es: seq<Effect>)
    ensures es == Kills(keys)
  {
    es := [];
    for i := 0 to |keys|
      invariant es == Kills(keys[..i])
    {
      assert keys[..i + 1][..i] == keys[..i];
      es := es + [KillProcess(keys[i])];
    }
    assert keys[..|keys|] == keys;
  }
}
