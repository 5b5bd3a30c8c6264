/**
 * The biometric lock screen of `security/AuthGate.tsx`, as a state machine. Its two
 * effects (mount and app-state change) and the result of an authentication attempt are
 * transitions over the gate's `locked` flag and the last app state it saw; the clock is a
 * parameter and the prompt itself (the platform's biometric dialog) is an outcome the
 * caller supplies.
 */
module AuthGate {
  import opened Wrappers
  import opened SecurityStore

  /** React Native's app states. */
  datatype AppStatus = Active | Background | Inactive | Unknown | Extension

  datatype Gate = Gate(locked: bool, appState: AppStatus)

  /** A transition's new gate and the prompt it opens, if it asks for authentication. */
  datatype Reaction = Reaction(gate: Gate, prompt: Option<string>)

  const MountPrompt: string := "Authenticate to continue"
  const ResumePrompt: string := "Re-authenticate"

  /** JavaScript truthiness of a nullable number: null and 0 are both false. */
  predicate Truthy(t: Option<int>) {
    t.Some? && t.value != 0
  }

  /** `fresh` on mount: authenticated less than a session ago. */
  predicate Fresh(lastAuthAt: Option<int>, now: int, sessionMs: int) {
    Truthy(lastAuthAt) && now - lastAuthAt.value < sessionMs
  }

  /** `expired` on resume. */
  predicate Expired(lastAuthAt: Option<int>, now: int, sessionMs: int) {
    !Truthy(lastAuthAt) || now - lastAuthAt.value >= sessionMs
  }

  /** The two checks are written separately in the component but are exact opposites. */
  lemma ExpiredIsNotFresh(lastAuthAt: Option<int>, now: int, sessionMs: int)
    ensures Expired(lastAuthAt, now, sessionMs) <==> !Fresh(lastAuthAt, now, sessionMs)
  {
  }

  /** A timestamp of 0 is falsy, so it never makes a session fresh. */
  lemma ZeroTimestampIsStale(now: int, sessionMs: int)
    ensures !Fresh(Some(0), now, sessionMs)
    ensures Expired(Some(0), now, sessionMs)
  {
  }

  /** The gate starts locked exactly when locking is on. */
  function InitialGate(settings: SecurityState, current: AppStatus): (g: Gate)
    ensures g.locked <==> settings.biometricsEnabled
    ensures g.appState == current
  {
    Gate(settings.biometricsEnabled, current)
  }

  /** Whether the children are rendered rather than the lock screen. */
  predicate ShowsContent(settings: SecurityState, g: Gate) {
    !settings.biometricsEnabled || !g.locked
  }

  /**
   * The mount effect: unlock when locking is off or the session is fresh; otherwise lock
   * and prompt.
   */
  function OnMount(settings: SecurityState, g: Gate, now: int): (r: Reaction)
    ensures r.gate.appState == g.appState
    ensures r.prompt.Some? <==>
              settings.biometricsEnabled && !Fresh(settings.lastAuthAt, now, settings.sessionMs)
    ensures r.prompt.Some? ==> r.prompt.value == MountPrompt
    ensures r.gate.locked <==> r.prompt.Some?
  {
    if !settings.biometricsEnabled then Reaction(g.(locked := false), None)
    else if Fresh(settings.lastAuthAt, now, settings.sessionMs) then Reaction(g.(locked := false), None)
    else Reaction(g.(locked := true), Some(MountPrompt))
  }

  /** The app came back to the foreground from the background or from being inactive. */
  predicate Resumed(prev: AppStatus, next: AppStatus) {
    (prev == Background || prev == Inactive) && next == Active
  }

  /**
   * The app-state listener: always records the new state; when locking is on and the
   * app resumes with an expired session, locks and prompts; otherwise leaves `locked` as
   * it was.
   */
  function OnChange(settings: SecurityState, g: Gate, next: AppStatus, now: int): (r: Reaction)
    ensures r.gate.appState == next
    ensures r.prompt.Some? <==>
              settings.biometricsEnabled && Resumed(g.appState, next)
              && Expired(settings.lastAuthAt, now, settings.sessionMs)
    ensures r.prompt.Some? ==> r.prompt.value == ResumePrompt && r.gate.locked
    ensures r.prompt.None? ==> r.gate.locked == g.locked
  {
    var prev := g.appState;
    var h := g.(appState := next);
    if !settings.biometricsEnabled then Reaction(h, None)
    else if Resumed(prev, next) && Expired(settings.lastAuthAt, now, settings.sessionMs) then
      Reaction(h.(locked := true), Some(ResumePrompt))
    else Reaction(h, None)
  }

  /** `tryAuth`: success records the time and unlocks; failure locks and records nothing. */
  function AuthResult(settings: SecurityState, g: Gate, ok: bool, now: int): (r: (SecurityState, Gate))
    ensures r.1.appState == g.appState
    ensures ok ==> r.0 == MarkAuthed(settings, now) && !r.1.locked
    ensures !ok ==> r.0 == settings && r.1.locked
  {
    if ok then (MarkAuthed(settings, now), g.(locked := false))
    else (settings, g.(locked := true))
  }

  /** With locking off, every transition leaves the content on screen and never prompts. */
  lemma DisabledAlwaysShows(settings: SecurityState, g: Gate, next: AppStatus, now: int)
    requires !settings.biometricsEnabled
    ensures ShowsContent(settings, g)
    ensures OnMount(settings, g, now).prompt.None? && ShowsContent(settings, OnMount(settings, g, now).gate)
    ensures OnChange(settings, g, next, now).prompt.None? && ShowsContent(settings, OnChange(settings, g, next, now).gate)
  {
  }

  /** A change that is not a resume never prompts and never changes `locked`. */
  lemma OnlyResumePrompts(settings: SecurityState, g: Gate, next: AppStatus, now: int)
    requires !Resumed(g.appState, next)
    ensures OnChange(settings, g, next, now).prompt.None?
    ensures OnChange(settings, g, next, now).gate.locked == g.locked
  {
  }

  /**
   * A successful authentication at a nonzero time keeps the app open on a remount or a
   * resume for the rest of the session.
   */
  lemma AuthenticatedSessionStaysOpen(settings: SecurityState, g: Gate, now: int, later: int, next: AppStatus)
    requires now != 0 && now <= later < now + settings.sessionMs
    ensures var (s, h) := AuthResult(settings, g, true, now);
            ShowsContent(s, h)
            && OnMount(s, h, later).prompt.None? && ShowsContent(s, OnMount(s, h, later).gate)
            && OnChange(s, h, next, later).prompt.None? && ShowsContent(s, OnChange(s, h, next, later).gate)
  {
  }

  /** A session length of zero (what a non-finite setting is clamped to) expires at once. */
  lemma ZeroSessionAlwaysExpires(settings: SecurityState, ms: Num, now: int)
    requires !ms.Finite? || ms.ms <= 0
    requires settings.lastAuthAt.Some? ==> settings.lastAuthAt.value <= now
    ensures var s := SetSessionMs(settings, ms);
            Expired(s.lastAuthAt, now, s.sessionMs)
  {
  }
}
