/** Contact sessions of one (car, bus) pair and the per-tick step on a pair's history. */
module Sessions {

  /** Simulation time, in seconds. */
  type Time = real

  datatype Option<T> = None | Some(value: T)

  /**
   * One contact session: the record dictionary of run.py. `exit` and `stay`
   * are absent while the session is open; closing sets both at once.
   */
  datatype Session = Session(enter: Time, exit: Option<Time>, stay: Option<Time>)
  {
    predicate IsOpen() { exit.None? }
  }

  /** The list of sessions of one (car, bus) pair, oldest first. */
  type History = seq<Session>

  /** A freshly entered session. */
  function Entered(t: Time): Session
  {
    Session(t, None, None)
  }

  /** The session `s` closed at time `t`. */
  function Closed(s: Session, t: Time): Session
  {
    Session(s.enter, Some(t), Some(t - s.enter))
  }

  /** The pair currently has an open session: its last record has no exit time. */
  predicate IsOpen(h: History)
  {
    |h| > 0 && h[|h| - 1].IsOpen()
  }

  /** `s'` is what `s` may become later: a closed session is frozen, an open one keeps its enter time. */
  predicate Evolves(s: Session, s': Session)
  {
    if s.IsOpen() then s'.enter == s.enter else s' == s
  }

  /** `h'` is `h` possibly with its open session closed and sessions appended. */
  predicate Grows(h: History, h': History)
  {
    |h| <= |h'| && forall i :: 0 <= i < |h| ==> Evolves(h[i], h'[i])
  }

  /** A session whose fields are consistent and lie no later than `now`. */
  predicate SessionOk(s: Session, now: Time)
  {
    && s.enter <= now
    && match s.exit
       case None => s.stay.None?
       case Some(e) => s.enter <= e <= now && s.stay == Some(e - s.enter)
  }

  /** `s` is closed, and no later than `s'` enters. */
  predicate Precedes(s: Session, s': Session)
  {
    s.exit.Some? && s.exit.value <= s'.enter
  }

  /**
   * Every session is consistent, and each session is closed before the
   * next one starts; so only the last one can be open.
   */
  predicate Chronological(h: History, now: Time)
  {
    && (forall i :: 0 <= i < |h| ==> SessionOk(h[i], now))
    && (forall i, j :: 0 <= i < j < |h| ==> Precedes(h[i], h[j]))
  }

  /** Close the open session, if any, at time `t` (run.py, closing on departure). */
  function CloseOpen(h: History, t: Time): History
  {
    if IsOpen(h) then h[..|h| - 1] + [Closed(h[|h| - 1], t)] else h
  }

  /**
   * Closing leaves no session open and changes no session but the open one,
   * which keeps its enter time and gets exit `t` and stay `t - enter`.
   */
  lemma CloseOpenSpec(h: History, t: Time)
    ensures var r := CloseOpen(h, t);
      && |r| == |h| && !IsOpen(r) && Grows(h, r)
      && (forall i :: 0 <= i < |h| - 1 ==> r[i] == h[i])
      && (!IsOpen(h) ==> r == h)
      && (IsOpen(h) ==> var s, s' := h[|h| - 1], r[|h| - 1];
            s'.enter == s.enter && s'.exit == Some(t) && s'.stay == Some(t - s.enter))
  {
    if IsOpen(h) {
      var r := CloseOpen(h, t);
      assert forall i :: 0 <= i < |h| - 1 ==> r[i] == h[i];
    }
  }

  /**
   * One tick for a pair whose car and bus are both live: open a session when
   * the car is in range and none is open, close the open one when it is out
   * of range, otherwise leave the history alone.
   */
  function StepPair(h: History, t: Time, inRange: bool): History
  {
    if inRange then
      if !IsOpen(h) then h + [Entered(t)] else h
    else
      CloseOpen(h, t)
  }

  /**
   * After the step the pair has an open session exactly when the car is in
   * range; the history only grows, by at most one freshly entered session,
   * and it is left alone when its open state already matches the range.
   */
  lemma StepPairSpec(h: History, t: Time, inRange: bool)
    ensures var r := StepPair(h, t, inRange);
      && IsOpen(r) == inRange
      && Grows(h, r) && |r| <= |h| + 1
      && (|r| == |h| + 1 ==> inRange && !IsOpen(h) && r == h + [Entered(t)])
      && (IsOpen(h) != inRange || r == h)
  {
    if !inRange {
      CloseOpenSpec(h, t);
    } else if !IsOpen(h) {
      var r := h + [Entered(t)];
      assert r[|r| - 1] == Entered(t);
      assert forall i :: 0 <= i < |h| ==> r[i] == h[i];
    }
  }

  /** In a chronological history every session but the last is closed: at most one is open. */
  lemma OnlyLastOpen(h: History, now: Time)
    requires Chronological(h, now)
    ensures forall i :: 0 <= i < |h| - 1 ==> !h[i].IsOpen()
  {
    forall i | 0 <= i < |h| - 1 ensures !h[i].IsOpen() {
      var last := h[|h| - 1];
      assert Precedes(h[i], last);
    }
  }

  /** Whether the chronological order holds does not depend on how late `now` is, past the last event. */
  lemma ChronologicalLater(h: History, now: Time, later: Time)
    requires Chronological(h, now) && now <= later
    ensures Chronological(h, later)
  {
    forall i | 0 <= i < |h| ensures SessionOk(h[i], later) {
      assert SessionOk(h[i], now);
    }
  }

  /** Closing the open session at a time no earlier than any recorded event keeps the order. */
  lemma CloseOpenChronological(h: History, t: Time)
    requires Chronological(h, t)
    ensures Chronological(CloseOpen(h, t), t)
  {
    var r := CloseOpen(h, t);
    if IsOpen(h) {
      var n := |h| - 1;
      assert SessionOk(h[n], t);
      forall i | 0 <= i < |r| ensures SessionOk(r[i], t) {
        if i < n { assert r[i] == h[i]; } else { assert r[i] == Closed(h[n], t); }
      }
      forall i, j | 0 <= i < j < |r| ensures Precedes(r[i], r[j]) {
        assert r[i] == h[i];
        assert r[j].enter == h[j].enter;
      }
    }
  }

  /** A tick at time `t`, no earlier than any recorded event, keeps the order. */
  lemma StepPairChronological(h: History, t: Time, inRange: bool)
    requires Chronological(h, t)
    ensures Chronological(StepPair(h, t, inRange), t)
  {
    if inRange {
      if !IsOpen(h) {
        var r := h + [Entered(t)];
        forall i | 0 <= i < |r| ensures SessionOk(r[i], t) {
          if i < |h| { assert r[i] == h[i]; }
        }
        forall i, j | 0 <= i < j < |r| ensures Precedes(r[i], r[j]) {
          assert r[i] == h[i];
          assert SessionOk(h[i], t);
          if j == |h| {
            if i == |h| - 1 { assert !h[i].IsOpen(); } else { assert h[i].exit.Some?; }
          }
        }
      }
    } else {
      CloseOpenChronological(h, t);
    }
  }

  /** `Grows` is a preorder: histories keep growing across ticks. */
  lemma GrowsTransitive(h0: History, h1: History, h2: History)
    requires Grows(h0, h1) && Grows(h1, h2)
    ensures Grows(h0, h2)
  {
    forall i | 0 <= i < |h0| ensures Evolves(h0[i], h2[i]) {
      assert Evolves(h0[i], h1[i]) && Evolves(h1[i], h2[i]);
    }
  }
}
