/** The authentication gate: how the sign-in screen and the site editor react
    to the current session, and the outcome of a sign-in or sign-up. */
module Auth {
  import opened Common
  import opened Effects

  const LoginPath := "/staff"
  const EditorPath := "/staffHome"
  const ConfirmEmailMessage := "Check your email to confirm your account before signing in."

  /** A component's stored session (the signed-in subject, None when there
      is no session) and the path it navigates to, if any. */
  datatype Reaction = Reaction(stored: Option<string>, nav: Option<string>)

  /** The site editor, at mount and on every session notification alike:
      it stores the session and leaves for the sign-in screen exactly when
      there is none. */
  function EditorReact(session: Option<string>): (r: Reaction)
    ensures r.stored == session
    ensures session.None? <==> r.nav == Some(LoginPath)
    ensures session.Some? <==> r.nav.None?
  {
    if session.None? then Reaction(session, Some(LoginPath)) else Reaction(session, None)
  }

  /** The sign-in screen at mount: it stores the session and enters the
      editor exactly when there is one. */
  function LoginMount(session: Option<string>): (r: Reaction)
    ensures r.stored == session
    ensures session.Some? <==> r.nav == Some(EditorPath)
    ensures session.None? <==> r.nav.None?
  {
    if session.Some? then Reaction(session, Some(EditorPath)) else Reaction(session, None)
  }

  /** The sign-in screen on a session notification: a present session is
      stored and enters the editor; a missing one is ignored, so a stored
      session is not cleared. */
  function LoginChange(stored: Option<string>, session: Option<string>): (r: Reaction)
    ensures session.Some? ==> r == Reaction(session, Some(EditorPath))
    ensures session.None? ==> r == Reaction(stored, None)
  {
    if session.Some? then Reaction(session, Some(EditorPath)) else Reaction(stored, None)
  }

  /** The sign-in screen shows its form while it stores no session, and its
      own page editor otherwise. */
  predicate ShowsLoginForm(stored: Option<string>) {
    stored.None?
  }

  // ---------------------------------------------------------------------
  // The two-screen gate
  // ---------------------------------------------------------------------

  datatype Screen = LoginScreen | EditorScreen

  /** The screen on display and the session its component stores. */
  datatype Gate = Gate(screen: Screen, stored: Option<string>)

  datatype GateStep = GateStep(gate: Gate, effects: seq<Effect>)

  /** The screen a navigation leads to. */
  function ScreenAt(path: string): Screen {
    if path == EditorPath then EditorScreen else LoginScreen
  }

  /** A component freshly mounted on `screen` reads the current session. */
  function Mount(screen: Screen, session: Option<string>): Reaction {
    match screen
    case EditorScreen => EditorReact(session)
    case LoginScreen => LoginMount(session)
  }

  /** Follows a reaction: without a navigation the screen stays; with one
      the target screen's component mounts and reads the same session. That
      mount never navigates again (`TargetMountStays`). */
  function Follow(screen: Screen, re: Reaction, session: Option<string>): GateStep {
    if re.nav.None? then GateStep(Gate(screen, re.stored), [])
    else
      var target := ScreenAt(re.nav.value);
      GateStep(Gate(target, Mount(target, session).stored), [Navigate(re.nav.value)])
  }

  /** Whenever a screen navigates for a session, whether on mount or on a
      notification, the screen it navigates to, mounting with the same
      session, stays where it is. */
  lemma TargetMountStays(screen: Screen, stored: Option<string>, session: Option<string>)
    ensures Mount(screen, session).nav.Some? ==>
      Mount(ScreenAt(Mount(screen, session).nav.value), session).nav.None?
    ensures EditorReact(session).nav.Some? ==>
      Mount(ScreenAt(EditorReact(session).nav.value), session).nav.None?
    ensures LoginChange(stored, session).nav.Some? ==>
      Mount(ScreenAt(LoginChange(stored, session).nav.value), session).nav.None?
  {
  }

  /** Opening `screen` directly: the editor is reached exactly when there is
      a session, with at most one redirect, and the screen reached stores the
      session it read. */
  function Enter(screen: Screen, session: Option<string>): (r: GateStep)
    ensures r.gate.screen == EditorScreen <==> session.Some?
    ensures |r.effects| <= 1
    ensures r.effects != [] <==> r.gate.screen != screen
    ensures r.gate.stored == session
    ensures r.effects != [] ==> r.effects == [Navigate(if session.Some? then EditorPath else LoginPath)]
    ensures LoginHoldsNoSession(r.gate)
  {
    Follow(screen, Mount(screen, session), session)
  }

  /** A session notification to the displayed screen: afterwards the editor
      is on display exactly when there is a session; at most one navigation
      fires, exactly when the screen changes, and a changed screen stores the
      new session; a missing session leaves the sign-in screen as it was. */
  function Notify(g: Gate, session: Option<string>): (r: GateStep)
    ensures r.gate.screen == EditorScreen <==> session.Some?
    ensures |r.effects| <= 1
    ensures r.effects != [] <==> r.gate.screen != g.screen
    ensures r.gate.screen != g.screen ==> r.gate.stored == session
    ensures g.screen == EditorScreen ==> r.gate.stored == session
    ensures r.effects != [] ==> r.effects == [Navigate(if session.Some? then EditorPath else LoginPath)]
    ensures g.screen == LoginScreen && session.None? ==> r == GateStep(g, [])
    ensures LoginHoldsNoSession(g) ==> LoginHoldsNoSession(r.gate)
  {
    match g.screen
    case EditorScreen => Follow(EditorScreen, EditorReact(session), session)
    case LoginScreen => Follow(LoginScreen, LoginChange(g.stored, session), session)
  }

  /** The sign-in screen, while on display, stores no session: it leaves for
      the editor whenever it would store one. */
  predicate LoginHoldsNoSession(g: Gate) {
    g.screen == LoginScreen ==> g.stored.None?
  }

  /** The gate after the notifications `sessions`, in order. */
  function Run(g: Gate, sessions: seq<Option<string>>): Gate
    decreases |sessions|
  {
    if |sessions| == 0 then g else Run(Notify(g, sessions[0]).gate, sessions[1..])
  }

  lemma {:induction false} RunKeepsLoginEmpty(g: Gate, sessions: seq<Option<string>>)
    requires LoginHoldsNoSession(g)
    ensures LoginHoldsNoSession(Run(g, sessions))
    decreases |sessions|
  {
    if |sessions| > 0 {
      RunKeepsLoginEmpty(Notify(g, sessions[0]).gate, sessions[1..]);
    }
  }

  /** Whichever screen is opened first and whatever notifications follow,
      the sign-in screen on display always shows its form: its own page
      editor is never shown. */
  lemma LegacyEditorNeverShown(screen: Screen, session: Option<string>, sessions: seq<Option<string>>)
    ensures var g := Run(Enter(screen, session).gate, sessions);
      g.screen == LoginScreen ==> ShowsLoginForm(g.stored)
  {
    RunKeepsLoginEmpty(Enter(screen, session).gate, sessions);
  }

  /** The gate settles at once: the same notification again changes nothing
      and navigates nowhere, so a navigation fires once per change. */
  lemma NotifySettles(g: Gate, session: Option<string>)
    ensures var g' := Notify(g, session).gate;
      Notify(g', session) == GateStep(g', [])
  {
  }

  // ---------------------------------------------------------------------
  // Sign-in and sign-up
  // ---------------------------------------------------------------------

  datatype Mode = SignInMode | SignUpMode

  /** The identity service's answer: an error message and (for a sign-up)
      whether a user and a session came back, or a call that threw. */
  datatype AuthReply =
    | Answered(error: Option<string>, user: bool, session: bool)
    | Threw

  /** The sign-in form's message and busy flag. */
  datatype AuthForm = AuthForm(error: string, loading: bool)

  datatype AuthOutcome = AuthOutcome(form: AuthForm, effects: seq<Effect>)

  /** Whether a reply asks for e-mail confirmation: a sign-up that returns a
      user without a session. */
  predicate NeedsConfirmation(mode: Mode, reply: AuthReply) {
    reply.Answered? && mode == SignUpMode && reply.user && !reply.session
  }

  /** Submitting the form. The old message is cleared first; an error reply
      shows its message; a sign-up that returns a user without a session asks
      for e-mail confirmation; every other answer enters the editor with no
      message. A call that throws leaves the message cleared and enters
      nothing. The form is never left busy. */
  function HandleAuthSubmit(form: AuthForm, mode: Mode, reply: AuthReply): (r: AuthOutcome)
    ensures !r.form.loading
    ensures r.effects == [] || r.effects == [Navigate(EditorPath)]
    ensures r.effects != [] <==> reply.Answered? && reply.error.None? && !NeedsConfirmation(mode, reply)
    ensures reply.Answered? && reply.error.Some? ==> r.form.error == reply.error.value
    ensures reply.Answered? && reply.error.None? && NeedsConfirmation(mode, reply) ==> r.form.error == ConfirmEmailMessage
    ensures reply.Threw? ==> r == AuthOutcome(AuthForm("", false), [])
    ensures r.effects != [] ==> r.form.error == ""
  {
    var busy := form.(loading := true, error := "");
    match reply
    case Threw => AuthOutcome(busy.(loading := false), [])
    case Answered(error, _, _) =>
      var shown :=
        if error.Some? then error.value
        else if NeedsConfirmation(mode, reply) then ConfirmEmailMessage
        else busy.error;
      var enters := error.None? && !NeedsConfirmation(mode, reply);
      AuthOutcome(busy.(error := shown, loading := false), if enters then [Navigate(EditorPath)] else [])
  }

  /** The outcome depends only on the mode and the reply, never on the
      message shown before; a sign-in ignores the sign-up fields. */
  lemma AuthOutcomeIgnoresStaleState(f1: AuthForm, f2: AuthForm, mode: Mode, reply: AuthReply,
                                     error: Option<string>, u1: bool, s1: bool, u2: bool, s2: bool)
    ensures HandleAuthSubmit(f1, mode, reply) == HandleAuthSubmit(f2, mode, reply)
    ensures HandleAuthSubmit(f1, SignInMode, Answered(error, u1, s1)) == HandleAuthSubmit(f1, SignInMode, Answered(error, u2, s2))
  {
  }
}
