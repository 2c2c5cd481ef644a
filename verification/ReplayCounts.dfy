/** Which entries a replay counts as applied (src/internal/storage/engine.go:256-263, 273-314), told from the sessions;
    the count decides whether the snapshot offset moves. */
module ReplayCounts {
  import opened Domain
  import opened StoreModel
  import opened Entries
  import A = StoreAnswers

  /** A CREATE counts unless its session is invalid, its user's quota is full -- also when the session is already
      there -- or its token belongs to another session; an UPDATE unless its session is invalid or would take another
      session's token; a DELETE always; an entry without its session never. */
  lemma CountsIff(st: State, max: int, e: Entry)
    requires Indexed(st)
    ensures e.op == OpDelete ==> CountsAsApplied(st, max, e)
    ensures e.op == OpUnspecified ==> !CountsAsApplied(st, max, e)
    ensures e.op != OpDelete && e.session == None ==> !CountsAsApplied(st, max, e)
    ensures e.op == OpCreate && e.session != None ==>
      var s, ss := e.session.value, st.sessions;
      CountsAsApplied(st, max, e) <==>
      Acceptable(s) && A.SessionsOf(ss, s.userId) < max &&
      (s.id in ss || s.tokenHash == "" || !A.Carried(ss, s.tokenHash))
    ensures e.op == OpUpdate && e.session != None ==>
      var s, ss := e.session.value, st.sessions;
      CountsAsApplied(st, max, e) <==>
      Acceptable(s) &&
      !(s.id in ss && ss[s.id].version == PrevVersion(s.version) && s.tokenHash != ss[s.id].tokenHash &&
        s.tokenHash != "" && A.Carried(ss, s.tokenHash))
  {
    hide Indexed, Acceptable, A.Carried, A.SessionsOf, StoreModel.Create, StoreModel.Update, PrevVersion;
    if e.session != None {
      A.CreateAnswers(st, max, e.session.value);
      A.UpdateAnswers(st, e.session.value, PrevVersion(e.session.value.version));
    }
  }

  /** What is counted lies between nothing and the entries that are not left out. */
  lemma {:induction false} AppliedIsBounded(st: State, max: int, now: int, log: seq<Entry>)
    ensures AppliedIn(st, max, now, log) <= |log|
    ensures AppliedIn(st, max, now, log) == |log| <==>
            forall i | 0 <= i < |log| ::
              !Skipped(log[i], now) && CountsAsApplied(Replay(st, max, now, log[..i]), max, log[i])
  {
    hide Skipped, CountsAsApplied, Apply, Replay;
    if log != [] {
      var before := log[..|log| - 1];
      AppliedIsBounded(st, max, now, before);
      forall i | 0 <= i < |before|
        ensures before[..i] == log[..i] && before[i] == log[i]
      {}
    }
  }
}
