/**
 * Applet drop routing: what happens when a file is dropped on an applet.
 * The applet's descriptor maps MIME types (or wildcard patterns `type/` followed by a star) to action
 * ids and lists actions with command templates. The route is a pure
 * decision: reject, run the command on the device, or forward it to the
 * linked computer as a `remote_exec_raw` request.
 */
module AppletRouting {
  import opened Wrappers
  import opened Strings
  import opened Shell
  import opened Seqs
  import Json

  /** One declared action: `id`, `command` (a missing or null command is the
      empty string) and the patterns of `triggers.mimetype`. */
  datatype Action = Action(id: Option<string>, command: string, mimetypes: seq<string>)

  /** An applet descriptor. `dropTriggers` is the `drop_triggers` dictionary
      as its entries in iteration order. */
  datatype Applet = Applet(name: string, dropTriggers: seq<(string, string)>, actions: seq<Action>)

  /** A dictionary has each key once. */
  ghost predicate DistinctKeys(entries: seq<(string, string)>)
  {
    forall i, j :: 0 <= i < j < |entries| ==> entries[i].0 != entries[j].0
  }

  /** `mimetypes.guess_type` found nothing (or an empty type). */
  const GenericMime: string := "application/octet-stream"

  function EffectiveMime(guess: Option<string>): string
  {
    if guess.Some? && guess.value != [] then guess.value else GenericMime
  }

  // A wildcard pattern `type/` + `*`: the text before the final slash-star is a
  // literal prefix of the type.
  predicate WildcardMatches(pattern: string, mime: string)
  {
    IsSuffix("/*", pattern) && IsPrefix(pattern[..|pattern| - 2], mime)
  }

  /** A pattern of an action's `triggers.mimetype` list accepts the type. */
  predicate PatternAccepts(pattern: string, mime: string)
  {
    pattern == "*" || pattern == mime || WildcardMatches(pattern, mime)
  }

  predicate Accepts(a: Action, mime: string)
  {
    exists k :: 0 <= k < |a.mimetypes| && PatternAccepts(a.mimetypes[k], mime)
  }

  /**
   * The drop trigger id for a type; the empty string stands for "no id"
   * (Python's `None` and `""` are both false). An exact key with a non-empty
   * id wins; otherwise the first wildcard key (`type/` and a star), in iteration order, whose
   * prefix matches supplies the id.
   */
  function TriggerId(triggers: seq<(string, string)>, mime: string): string
  {
    var exact := FirstIndex(triggers, (e: (string, string)) => e.0 == mime, 0);
    var exactId := if exact.Some? then triggers[exact.value].1 else [];
    if exactId != [] then exactId
    else
      var wild := FirstIndex(triggers, (e: (string, string)) => WildcardMatches(e.0, mime), 0);
      if wild.Some? then triggers[wild.value].1 else exactId
  }

  /** The action a drop resolves to: the first action with the trigger id,
      else the first action in declared order whose patterns accept the type. */
  function ResolveAction(applet: Applet, mime: string): Option<Action>
  {
    var tid := TriggerId(applet.dropTriggers, mime);
    var byId := if tid != [] then FirstIndex(applet.actions, (a: Action) => a.id == Some(tid), 0) else None;
    if byId.Some? then Some(applet.actions[byId.value])
    else
      var byMime := FirstIndex(applet.actions, (a: Action) => Accepts(a, mime), 0);
      if byMime.Some? then Some(applet.actions[byMime.value]) else None
  }

  /** `%F` or `%f` at index `i`: the template's placeholders for the dropped file. */
  predicate TokenAt(t: string, i: int)
  {
    0 <= i && i + 1 < |t| && t[i] == '%' && (t[i + 1] == 'F' || t[i + 1] == 'f')
  }

  predicate TokenFree(t: string)
  {
    forall i :: 0 <= i < |t| ==> !TokenAt(t, i)
  }

  /** Every placeholder of the template replaced by `q`, in one left-to-right
      pass: the inserted text is never searched for placeholders. */
  function Substitute(t: string, q: string): string
    decreases |t|
  {
    if |t| < 2 then t
    else if TokenAt(t, 0) then q + Substitute(t[2..], q)
    else [t[0]] + Substitute(t[1..], q)
  }

  lemma {:induction false} SubstituteTokenFree(t: string, q: string)
    requires TokenFree(t)
    ensures Substitute(t, q) == t
    decreases |t|
  {
    if |t| >= 2 {
      assert !TokenAt(t, 0);
      assert forall i :: 0 <= i < |t[1..]| ==> (TokenAt(t[1..], i) <==> TokenAt(t, i + 1));
      SubstituteTokenFree(t[1..], q);
      assert [t[0]] + t[1..] == t;
    }
  }

  /** The substitution is verbatim: text before the first placeholder is kept,
      the placeholder becomes exactly `q`, and the rest is substituted in turn. */
  lemma {:induction false} SubstituteFirstToken(a: string, tok: string, b: string, q: string)
    requires TokenFree(a) && (tok == "%F" || tok == "%f")
    ensures Substitute(a + tok + b, q) == a + q + Substitute(b, q)
    decreases |a|
  {
    var t := a + tok + b;
    if a == [] {
      assert t == tok + b && TokenAt(t, 0) && t[2..] == b;
    } else {
      assert !TokenAt(t, 0) by {
        if |a| == 1 { assert t[1] == '%'; } else { assert !TokenAt(a, 0); }
      }
      assert forall i :: 0 <= i < |a[1..]| ==> (TokenAt(a[1..], i) <==> TokenAt(a, i + 1));
      assert t[1..] == a[1..] + tok + b;
      SubstituteFirstToken(a[1..], tok, b, q);
      assert [a[0]] + (a[1..] + q + Substitute(b, q)) == a + q + Substitute(b, q);
    }
  }

  /** The command for a template: every placeholder becomes the shell-quoted path. */
  function BuildCommand(template: string, path: string): string
  {
    Substitute(template, Quote(path))
  }

  /** The command exactly as main.py builds it: all `%F` first, then all `%f`
      of the result, so a `%f` inside the inserted quoted path is replaced too. */
  function BuildCommandAsWritten(template: string, path: string): string
  {
    var q := Quote(path);
    ReplaceAll(ReplaceAll(template, "%F", q), "%f", q)
  }

  /** Tools whose commands are sent to the linked computer when possible. */
  const HeavyKeywords: seq<string> := ["ffmpeg", "convert", "7z", "tar", "make", "docker", "gimp"]

  /** Some keyword occurs, case-sensitively, as a substring of the command. */
  predicate IsHeavy(cmd: string)
  {
    exists k :: 0 <= k < |HeavyKeywords| && Contains(cmd, HeavyKeywords[k])
  }

  /** The request sent for remote execution. */
  function RemoteExecRequest(cmd: string, originFile: string): Json.Value
  {
    Json.JObj(map["command" := Json.JStr("remote_exec_raw"),
                  "shell_command" := Json.JStr(cmd),
                  "origin_file" := Json.JStr(originFile)])
  }

  datatype Rejection = NotAccepted | NoCommand

  datatype Outcome =
    | Rejected(why: Rejection)
    | RunLocal(command: string)
    | RunRemote(request: Json.Value)

  /** A built command runs on the linked computer when connected and heavy,
      and on the device otherwise. */
  function Forward(cmd: string, path: string, connected: bool): (r: Outcome)
    ensures r.RunRemote? <==> connected && IsHeavy(cmd)
    ensures r.RunRemote? ==> r.request == RemoteExecRequest(cmd, path)
    ensures r.RunLocal? ==> r.command == cmd
    ensures !r.Rejected?
  {
    if connected && IsHeavy(cmd) then RunRemote(RemoteExecRequest(cmd, path))
    else RunLocal(cmd)
  }

  /**
   * The decision of `_trigger_applet_action` for a dropped file `path`, the
   * type `guess` that `mimetypes.guess_type` returned, the applet and the
   * app's connection flag, with the command built as main.py builds it.
   */
  function Route(path: string, guess: Option<string>, applet: Applet, connected: bool): (r: Outcome)
    ensures ResolveAction(applet, EffectiveMime(guess)).None? ==> r == Rejected(NotAccepted)
    ensures r.Rejected? <==>
              ResolveAction(applet, EffectiveMime(guess)).None? ||
              ResolveAction(applet, EffectiveMime(guess)).value.command == []
    ensures !r.Rejected? ==>
              var cmd := BuildCommandAsWritten(ResolveAction(applet, EffectiveMime(guess)).value.command, path);
              r == if connected && IsHeavy(cmd) then RunRemote(RemoteExecRequest(cmd, path)) else RunLocal(cmd)
  {
    var action := ResolveAction(applet, EffectiveMime(guess));
    if action.None? then Rejected(NotAccepted)
    else if action.value.command == [] then Rejected(NoCommand)
    else Forward(BuildCommandAsWritten(action.value.command, path), path, connected)
  }

  /** The same decision with the command built in one pass (`BuildCommand`),
      so that the dropped path stays one quoted argument. */
  function RouteCorrected(path: string, guess: Option<string>, applet: Applet, connected: bool): (r: Outcome)
    ensures r.Rejected? <==> Route(path, guess, applet, connected).Rejected?
    ensures r.Rejected? ==> r == Route(path, guess, applet, connected)
    ensures !r.Rejected? ==>
              var cmd := BuildCommand(ResolveAction(applet, EffectiveMime(guess)).value.command, path);
              r == if connected && IsHeavy(cmd) then RunRemote(RemoteExecRequest(cmd, path)) else RunLocal(cmd)
  {
    var action := ResolveAction(applet, EffectiveMime(guess));
    if action.None? then Rejected(NotAccepted)
    else if action.value.command == [] then Rejected(NoCommand)
    else Forward(BuildCommand(action.value.command, path), path, connected)
  }

  // ---------------------------------------------------------------------
  // Properties of the decision procedure

  /** An exact key with a non-empty id beats every wildcard key. */
  lemma ExactTriggerWins(triggers: seq<(string, string)>, mime: string, id: string)
    requires DistinctKeys(triggers) && (mime, id) in triggers && id != []
    ensures TriggerId(triggers, mime) == id
  {
    var i :| 0 <= i < |triggers| && triggers[i] == (mime, id);
    var exact := FirstIndex(triggers, (e: (string, string)) => e.0 == mime, 0);
    assert exact == Some(i);
  }

  /** Without a usable exact key, the first matching wildcard key in
      iteration order supplies the id. */
  lemma WildcardTriggerFirst(triggers: seq<(string, string)>, mime: string, i: nat)
    requires forall e :: e in triggers && e.0 == mime ==> e.1 == []
    requires i < |triggers| && WildcardMatches(triggers[i].0, mime)
    requires forall j :: 0 <= j < i ==> !WildcardMatches(triggers[j].0, mime)
    ensures TriggerId(triggers, mime) == triggers[i].1
  {
    var exact := FirstIndex(triggers, (e: (string, string)) => e.0 == mime, 0);
    if exact.Some? {
      assert triggers[exact.value] in triggers;
    }
    var wild := FirstIndex(triggers, (e: (string, string)) => WildcardMatches(e.0, mime), 0);
    assert wild == Some(i);
  }

  /** With no exact key and no matching wildcard key there is no trigger id. */
  lemma NoTrigger(triggers: seq<(string, string)>, mime: string)
    requires forall e :: e in triggers && e.0 == mime ==> e.1 == []
    requires forall e :: e in triggers ==> !WildcardMatches(e.0, mime)
    ensures TriggerId(triggers, mime) == []
  {
    var exact := FirstIndex(triggers, (e: (string, string)) => e.0 == mime, 0);
    if exact.Some? {
      assert triggers[exact.value] in triggers;
    }
    forall j | 0 <= j < |triggers| ensures !WildcardMatches(triggers[j].0, mime) {
      assert triggers[j] in triggers;
    }
  }

  // The wildcard test is a literal prefix test: the pattern `image/*` also
  // matches the type `imagex/y`.
  lemma WildcardIsLiteralPrefix()
    ensures WildcardMatches("image/*", "imagex/y")
  {
    assert "image/*"[..5] == "image";
    assert "imagex/y"[..5] == "image";
  }

  /** A trigger id selects the first action declared with that id. */
  lemma ActionById(applet: Applet, mime: string, i: nat)
    requires TriggerId(applet.dropTriggers, mime) != []
    requires i < |applet.actions| && applet.actions[i].id == Some(TriggerId(applet.dropTriggers, mime))
    requires forall j :: 0 <= j < i ==> applet.actions[j].id != Some(TriggerId(applet.dropTriggers, mime))
    ensures ResolveAction(applet, mime) == Some(applet.actions[i])
  {
    var tid := TriggerId(applet.dropTriggers, mime);
    assert FirstIndex(applet.actions, (a: Action) => a.id == Some(tid), 0) == Some(i);
  }

  /** With no trigger id, or no action carrying it, the first action in
      declared order that accepts the type is used, and none when no action does. */
  lemma ActionByMime(applet: Applet, mime: string)
    requires TriggerId(applet.dropTriggers, mime) == [] ||
             forall a :: a in applet.actions ==> a.id != Some(TriggerId(applet.dropTriggers, mime))
    ensures ResolveAction(applet, mime).Some? <==> exists a :: a in applet.actions && Accepts(a, mime)
    ensures ResolveAction(applet, mime).Some? ==>
              exists i :: 0 <= i < |applet.actions| && ResolveAction(applet, mime) == Some(applet.actions[i]) &&
                Accepts(applet.actions[i], mime) && forall j :: 0 <= j < i ==> !Accepts(applet.actions[j], mime)
  {
    var tid := TriggerId(applet.dropTriggers, mime);
    if tid != [] {
      forall j | 0 <= j < |applet.actions| ensures applet.actions[j].id != Some(tid) {
        assert applet.actions[j] in applet.actions;
      }
    }
    var byMime := FirstIndex(applet.actions, (a: Action) => Accepts(a, mime), 0);
    if byMime.None? {
      forall a | a in applet.actions ensures !Accepts(a, mime) {
        var k :| 0 <= k < |applet.actions| && applet.actions[k] == a;
      }
    }
  }

  /** A placeholder is replaced by the quoted path and nothing else changes;
      the quoted path is one shell word that reads back as the path itself,
      whatever blanks or metacharacters the path holds. */
  lemma QuotedPathIsOneArgument(pre: string, tok: string, post: string, path: string)
    requires TokenFree(pre) && TokenFree(post) && (tok == "%F" || tok == "%f")
    ensures BuildCommand(pre + tok + post, path) == pre + Quote(path) + post
    ensures SingleWord(Quote(path)) == Some(path)
  {
    SubstituteFirstToken(pre, tok, post, Quote(path));
    SubstituteTokenFree(post, Quote(path));
    QuoteIsOneWord(path);
  }

  /** As written, a placeholder is still replaced by exactly the quoted
      path when neither the template around it nor the path holds a `%`. */
  lemma TwoPassQuotedPath(pre: string, tok: string, post: string, path: string)
    requires '%' !in pre && '%' !in post && '%' !in path && (tok == "%F" || tok == "%f")
    ensures BuildCommandAsWritten(pre + tok + post, path) == pre + Quote(path) + post
    ensures SingleWord(Quote(path)) == Some(path)
  {
    var q := Quote(path);
    QuoteKeepsAbsent(path, '%');
    var first := ReplaceAll(pre + tok + post, "%F", q);
    if tok == "%F" {
      FirstPassCapital(pre, post, q);
      assert first == pre + q + post;
      assert '%' !in pre + q + post;
      NoSecondPass(pre + q + post, q);
    } else {
      FirstPassSmall(pre, post, q);
      assert first == pre + "%f" + post;
      SecondPassSmall(pre, post, q);
    }
    QuoteIsOneWord(path);
  }

  lemma FirstPassCapital(pre: string, post: string, q: string)
    requires '%' !in pre && '%' !in post
    ensures ReplaceAll(pre + "%F" + post, "%F", q) == pre + q + post
  {
    var t := "%F" + post;
    assert pre + "%F" + post == pre + t;
    ReplaceSkip(pre, t, "%F", q);
    assert t[..2] == "%F" && t[2..] == post;
    NoFirstPass(post, q);
  }

  lemma FirstPassSmall(pre: string, post: string, q: string)
    requires '%' !in pre && '%' !in post
    ensures ReplaceAll(pre + "%f" + post, "%F", q) == pre + "%f" + post
  {
    var t := "%f" + post;
    assert pre + "%f" + post == pre + t;
    ReplaceSkip(pre, t, "%F", q);
    assert t[..2] != "%F" && t[1..] == "f" + post;
    NoFirstPass("f" + post, q);
    assert [t[0]] + ("f" + post) == t;
  }

  lemma SecondPassSmall(pre: string, post: string, q: string)
    requires '%' !in pre && '%' !in post
    ensures ReplaceAll(pre + "%f" + post, "%f", q) == pre + q + post
  {
    var t := "%f" + post;
    assert pre + "%f" + post == pre + t;
    ReplaceSkip(pre, t, "%f", q);
    assert t[..2] == "%f" && t[2..] == post;
    NoSecondPass(post, q);
  }

  lemma NoFirstPass(s: string, q: string)
    requires '%' !in s
    ensures ReplaceAll(s, "%F", q) == s
  {
    ReplaceSkip(s, [], "%F", q);
    assert s + [] == s;
  }

  lemma NoSecondPass(s: string, q: string)
    requires '%' !in s
    ensures ReplaceAll(s, "%f", q) == s
  {
    ReplaceSkip(s, [], "%f", q);
    assert s + [] == s;
  }

  /** A remote route happens only when connected, and then the request
      carries the built command and the original path. */
  lemma RemoteOnlyWhenConnected(path: string, guess: Option<string>, applet: Applet)
    ensures !Route(path, guess, applet, false).RunRemote?
    ensures Route(path, guess, applet, true).RunLocal? ==>
              Route(path, guess, applet, false) == Route(path, guess, applet, true)
  {
  }

  // ---------------------------------------------------------------------
  // Worked instances

  // The resize applet: the pattern `image/*` triggers `resize`, whose command
  // runs `convert`; a PNG whose path holds no `%` goes to the linked computer
  // when connected and runs on the device otherwise, with the path quoted in
  // both cases, as written and corrected alike.
  lemma ResizeExample(path: string, connected: bool)
    requires '%' !in path
    ensures var applet := Applet("Resize", [("image/*", "resize")],
                                 [Action(Some("resize"), "convert %F out.png", [])]);
            var cmd := "convert " + Quote(path) + " out.png";
            && Route(path, Some("image/png"), applet, connected)
                 == (if connected then RunRemote(RemoteExecRequest(cmd, path)) else RunLocal(cmd))
            && RouteCorrected(path, Some("image/png"), applet, connected)
                 == Route(path, Some("image/png"), applet, connected)
  {
    var applet := Applet("Resize", [("image/*", "resize")], [Action(Some("resize"), "convert %F out.png", [])]);
    ResizeResolves();
    ResizeCommand(path);
    var cmd := "convert " + Quote(path) + " out.png";
    assert Route(path, Some("image/png"), applet, connected) == Forward(cmd, path, connected);
    assert RouteCorrected(path, Some("image/png"), applet, connected) == Forward(cmd, path, connected);
  }

  lemma ResizeResolves()
    ensures ResolveAction(Applet("Resize", [("image/*", "resize")], [Action(Some("resize"), "convert %F out.png", [])]),
                          "image/png")
         == Some(Action(Some("resize"), "convert %F out.png", []))
  {
    var applet := Applet("Resize", [("image/*", "resize")], [Action(Some("resize"), "convert %F out.png", [])]);
    assert WildcardMatches("image/*", "image/png") by {
      assert "image/*"[..5] == "image" && "image/png"[..5] == "image";
    }
    WildcardTriggerFirst(applet.dropTriggers, "image/png", 0);
    ActionById(applet, "image/png", 0);
  }

  lemma ResizeCommand(path: string)
    requires '%' !in path
    ensures BuildCommand("convert %F out.png", path) == "convert " + Quote(path) + " out.png"
    ensures BuildCommandAsWritten("convert %F out.png", path) == "convert " + Quote(path) + " out.png"
    ensures IsHeavy("convert " + Quote(path) + " out.png")
  {
    assert "convert %F out.png" == "convert " + "%F" + " out.png";
    assert TokenFree("convert ") by {
      forall i | 0 <= i < 8 ensures !TokenAt("convert ", i) {}
    }
    assert TokenFree(" out.png") by {
      forall i | 0 <= i < 8 ensures !TokenAt(" out.png", i) {}
    }
    QuotedPathIsOneArgument("convert ", "%F", " out.png", path);
    TwoPassQuotedPath("convert ", "%F", " out.png", path);
    var cmd := "convert " + Quote(path) + " out.png";
    assert cmd[..7] == "convert";
    assert Contains(cmd, HeavyKeywords[1]);
  }

  // `text/plain` resolves through its exact key even though `text/*` also matches.
  lemma ExactPrecedenceExample()
    ensures TriggerId([("text/plain", "open_text"), ("text/*", "open_generic")], "text/plain") == "open_text"
  {
    var triggers := [("text/plain", "open_text"), ("text/*", "open_generic")];
    assert DistinctKeys(triggers);
    ExactTriggerWins(triggers, "text/plain", "open_text");
  }

  // ---------------------------------------------------------------------
  // The two-pass substitution of main.py

  /** With template `%F` and the path `x %f;y`, main.py inserts the quoted
      path and then replaces the `%f` inside it by the quoted path again; the
      result is not one shell word (it has an unquoted blank and an unquoted
      `;`), while the one-pass substitution gives the quoted path itself. */
  lemma AsWrittenBreaksQuoting()
    ensures BuildCommandAsWritten("%F", "x %f;y") == "'x 'x %f;y';y'"
    ensures SingleWord(BuildCommandAsWritten("%F", "x %f;y")) == None
  {
    ExampleQuote();
    var q := "'x %f;y'";
    assert ReplaceAll([], "%F", q) == [];
    assert ReplaceAll("%F", "%F", q) == q + ReplaceAll([], "%F", q);
    assert ReplaceAll("%F", "%F", q) == q;
    ExampleSecondPass();
    assert BuildCommandAsWritten("%F", "x %f;y") == ReplaceAll(q, "%f", q);
    ExampleNotOneWord();
  }

  /** For the same template and path the one-pass substitution yields the
      quoted path, which the shell reads back as the path. */
  lemma OnePassKeepsQuoting()
    ensures SingleWord(BuildCommand("%F", "x %f;y")) == Some("x %f;y")
  {
    var q := Quote("x %f;y");
    SubstituteFirstToken([], "%F", [], q);
    assert [] + "%F" + [] == "%F";
    assert Substitute([], q) == [];
    assert Substitute("%F", q) == q;
    assert BuildCommand("%F", "x %f;y") == q;
    QuoteIsOneWord("x %f;y");
    assert SingleWord(q) == Some("x %f;y");
  }

  /** Dropping `x %f;y` on an applet whose action runs `%F` for every type:
      as written the device runs `'x 'x %f;y';y'`, whose `;` starts a second
      command, while the corrected route runs the quoted path alone. */
  lemma RouteAsWrittenSplitsPath()
    ensures var applet := Applet("Any", [], [Action(None, "%F", ["*"])]);
            && Route("x %f;y", None, applet, false) == RunLocal("'x 'x %f;y';y'")
            && RouteCorrected("x %f;y", None, applet, false) == RunLocal("'x %f;y'")
  {
    var action := Action(None, "%F", ["*"]);
    var applet := Applet("Any", [], [action]);
    assert PatternAccepts(action.mimetypes[0], GenericMime);
    assert Accepts(action, GenericMime);
    assert TriggerId([], GenericMime) == [];
    assert ResolveAction(applet, GenericMime) == Some(action);
    AsWrittenBreaksQuoting();
    ExampleQuote();
    SubstituteFirstToken([], "%F", [], "'x %f;y'");
    assert [] + "%F" + [] == "%F";
    assert Substitute([], "'x %f;y'") == [];
    assert BuildCommand("%F", "x %f;y") == "'x %f;y'";
  }

  lemma ExampleQuote()
    ensures Quote("x %f;y") == "'x %f;y'"
  {
    var p := "x %f;y";
    assert !SafeChar(p[1]);
    assert '\'' !in p;
    CharAbsent(p, '\'');
    ReplaceAbsent(p, "'", QuoteEscape);
  }

  lemma ExampleSecondPass()
    ensures ReplaceAll("'x %f;y'", "%f", "'x %f;y'") == "'x 'x %f;y';y'"
  {
    var q := "'x %f;y'";
    ExampleSecondPassHead();
    ExampleSecondPassTail();
    assert "'x " + (q + ";y'") == "'x 'x %f;y';y'";
  }

  lemma ExampleSecondPassHead()
    ensures ReplaceAll("'x %f;y'", "%f", "'x %f;y'") == "'x " + ReplaceAll("%f;y'", "%f", "'x %f;y'")
  {
    var q := "'x %f;y'";
    calc {
      ReplaceAll(q, "%f", q);
      { assert q[..2] != "%f" && q[1..] == "x %f;y'"; }
      "'" + ReplaceAll("x %f;y'", "%f", q);
      { assert "x %f;y'"[..2] != "%f" && "x %f;y'"[1..] == " %f;y'"; }
      "'" + ("x" + ReplaceAll(" %f;y'", "%f", q));
      { assert " %f;y'"[..2] != "%f" && " %f;y'"[1..] == "%f;y'"; }
      "'" + ("x" + (" " + ReplaceAll("%f;y'", "%f", q)));
      "'x " + ReplaceAll("%f;y'", "%f", q);
    }
  }

  lemma ExampleSecondPassTail()
    ensures ReplaceAll("%f;y'", "%f", "'x %f;y'") == "'x %f;y'" + ";y'"
  {
    var q := "'x %f;y'";
    calc {
      ReplaceAll("%f;y'", "%f", q);
      { assert "%f;y'"[..2] == "%f" && "%f;y'"[2..] == ";y'"; }
      q + ReplaceAll(";y'", "%f", q);
      { assert ";y'"[..2] != "%f" && ";y'"[1..] == "y'"; }
      q + (";" + ReplaceAll("y'", "%f", q));
      { assert "y'"[..2] != "%f" && "y'"[1..] == "'"; }
      q + (";" + ("y" + ReplaceAll("'", "%f", q)));
      q + ";y'";
    }
  }

  /** The shell reads `'x '` and `x` as one word and then meets an unquoted blank. */
  lemma ExampleNotOneWord()
    ensures SingleWord("'x 'x %f;y';y'") == None
  {
    var s := "'x 'x %f;y';y'";
    assert s == "'" + "x " + "'" + ("x" + (" " + "%f;y';y'"));
    QuotedThenBlank("x ", 'x', "%f;y';y'");
  }

  /** A single-quoted part, then a safe character, then an unquoted blank:
      the word ends before the text does. */
  lemma QuotedThenBlank(a: string, x: char, rest: string)
    requires '\'' !in a && SafeChar(x)
    ensures Lex("'" + a + "'" + ([x] + (" " + rest)), Plain) == None
  {
    var b := [x] + (" " + rest);
    LexSingleQuoted(a, b);
    LexCons(' ', rest, Plain);
    LexCons(x, " " + rest, Plain);
  }

  /** Inside single quotes everything up to the closing quote is literal. */
  lemma {:induction false} LexSingleQuoted(a: string, b: string)
    requires '\'' !in a
    ensures Lex("'" + a + "'" + b, Plain) == Prepend(a, Lex(b, Plain))
  {
    LexCons('\'', a + "'" + b, Plain);
    assert "'" + a + "'" + b == [ '\'' ] + (a + "'" + b);
    PrependNothing(Lex(a + "'" + b, InSingle));
    InsideSingle(a, b);
  }

  lemma {:induction false} InsideSingle(a: string, b: string)
    requires '\'' !in a
    ensures Lex(a + "'" + b, InSingle) == Prepend(a, Lex(b, Plain))
    decreases |a|
  {
    if a == [] {
      assert a + "'" + b == ['\''] + b;
      LexCons('\'', b, InSingle);
      PrependNothing(Lex(b, Plain));
    } else {
      assert a + "'" + b == [a[0]] + (a[1..] + "'" + b);
      assert '\'' !in a[1..] by {
        assert forall k :: 0 <= k < |a[1..]| ==> a[1..][k] == a[k + 1];
      }
      LexCons(a[0], a[1..] + "'" + b, InSingle);
      InsideSingle(a[1..], b);
      var w := Lex(b, Plain);
      if w.Some? {
        assert [a[0]] + (a[1..] + w.value) == a + w.value;
      }
    }
  }
}
