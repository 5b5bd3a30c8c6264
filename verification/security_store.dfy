/**
 * The persisted security settings of `store/securityStore.ts`: whether biometric locking
 * is on, how long a session lasts, and when the user last authenticated. The clock is a
 * parameter; a number is a whole count of milliseconds or one of the non-finite values.
 */
module SecurityStore {
  import opened Wrappers

  /** A JavaScript number as far as the clamp can tell: finite, or NaN or an infinity. */
  datatype Num = Finite(ms: int) | NotANumber | PositiveInfinity | NegativeInfinity

  datatype SecurityState = SecurityState(
    biometricsEnabled: bool,
    sessionMs: int,
    lastAuthAt: Option<int>,
    hydrated: bool)

  /** 24 hours. */
  const MaxSessionMs: int := 86_400_000

  /** 5 minutes. */
  const DefaultSessionMs: int := 5 * 60 * 1000

  /** The state before rehydration: locking off, so a first launch never locks the user out. */
  const Initial: SecurityState := SecurityState(false, DefaultSessionMs, None, false)

  function SetEnabled(st: SecurityState, v: bool): (r: SecurityState)
    ensures r.biometricsEnabled == v
    ensures r.(biometricsEnabled := st.biometricsEnabled) == st
  {
    st.(biometricsEnabled := v)
  }

  /** The session length `setSessionMs` stores: 0 for a non-finite value, otherwise clamped to a day. */
  function ClampSession(ms: Num): (r: int)
    ensures 0 <= r <= MaxSessionMs
    ensures !ms.Finite? ==> r == 0
    ensures ms.Finite? && 0 <= ms.ms <= MaxSessionMs ==> r == ms.ms
    ensures ms.Finite? && ms.ms < 0 ==> r == 0
    ensures ms.Finite? && ms.ms > MaxSessionMs ==> r == MaxSessionMs
  {
    var value := if ms.Finite? then ms.ms else 0;
    Max(0, Min(value, MaxSessionMs))
  }

  function Min(a: int, b: int): int {
    if a < b then a else b
  }

  function Max(a: int, b: int): int {
    if a < b then b else a
  }

  function SetSessionMs(st: SecurityState, ms: Num): (r: SecurityState)
    ensures 0 <= r.sessionMs <= MaxSessionMs
    ensures r.(sessionMs := st.sessionMs) == st
  {
    st.(sessionMs := ClampSession(ms))
  }

  /** Setting a stored session length again changes nothing. */
  lemma SetSessionMsIdempotent(st: SecurityState, ms: Num)
    ensures var once := SetSessionMs(st, ms);
            SetSessionMs(once, Finite(once.sessionMs)) == once
  {
  }

  /** A longer requested session never gives a shorter stored one. */
  lemma ClampMonotone(a: int, b: int)
    requires a <= b
    ensures ClampSession(Finite(a)) <= ClampSession(Finite(b))
  {
  }

  function MarkAuthed(st: SecurityState, now: int): (r: SecurityState)
    ensures r.lastAuthAt == Some(now)
    ensures r.(lastAuthAt := st.lastAuthAt) == st
  {
    st.(lastAuthAt := Some(now))
  }

  function ClearSession(st: SecurityState): (r: SecurityState)
    ensures r.lastAuthAt.None?
    ensures r.(lastAuthAt := st.lastAuthAt) == st
  {
    st.(lastAuthAt := None)
  }

  function SetHydrated(st: SecurityState, v: bool): (r: SecurityState)
    ensures r.hydrated == v
    ensures r.(hydrated := st.hydrated) == st
  {
    st.(hydrated := v)
  }

  // ------------------------------------------------------------ persistence

  /** The slice written to storage. */
  datatype Persisted = Persisted(biometricsEnabled: bool, sessionMs: int, lastAuthAt: Option<int>)

  /**
   * A slice read back from storage, any field of which may be missing or null (both
   * `None` here); the whole slice may be missing too.
   */
  datatype Stored = Stored(biometricsEnabled: Option<bool>, sessionMs: Option<int>, lastAuthAt: Option<int>)

  /** `partialize`: the three settings, without the runtime `hydrated` flag. */
  function Partialize(st: SecurityState): (p: Persisted)
    ensures p.biometricsEnabled == st.biometricsEnabled
    ensures p.sessionMs == st.sessionMs
    ensures p.lastAuthAt == st.lastAuthAt
  {
    Persisted(st.biometricsEnabled, st.sessionMs, st.lastAuthAt)
  }

  /**
   * `migrate`: every missing field gets its default (locking off, five minutes, never
   * authenticated) and every present one is kept, without clamping the session length.
   * The version read from storage is not consulted.
   */
  function Migrate(persisted: Option<Stored>): (r: Persisted)
    ensures persisted.None? ==> r == Persisted(false, DefaultSessionMs, None)
    ensures persisted.Some? ==>
              r.biometricsEnabled == persisted.value.biometricsEnabled.GetOr(false)
              && r.sessionMs == persisted.value.sessionMs.GetOr(DefaultSessionMs)
              && r.lastAuthAt == persisted.value.lastAuthAt
  {
    var p := persisted.GetOr(Stored(None, None, None));
    Persisted(p.biometricsEnabled.GetOr(false), p.sessionMs.GetOr(DefaultSessionMs), p.lastAuthAt)
  }

  function Store(p: Persisted): Stored {
    Stored(Some(p.biometricsEnabled), Some(p.sessionMs), p.lastAuthAt)
  }

  /** What was persisted comes back unchanged through `migrate`. */
  lemma MigrateRoundTrip(st: SecurityState)
    ensures Migrate(Some(Store(Partialize(st)))) == Partialize(st)
  {
  }

  /** A value outside the range that `setSessionMs` enforces survives `migrate`. */
  lemma MigrateDoesNotClamp()
    ensures Migrate(Some(Stored(None, Some(-1), None))).sessionMs == -1
  {
  }

  /** The initial state and the defaults of `migrate` agree on the three persisted settings. */
  lemma InitialMatchesDefaults()
    ensures Partialize(Initial) == Migrate(None)
    ensures !Initial.biometricsEnabled && !Initial.hydrated
  {
  }
}
