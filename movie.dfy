/**
 * Movie mode of mandel.c (run_movie_mode): 50 frames of a zoom towards
 * a fixed centre, each rendered by a re-executed child process, with at
 * most num_children children in flight.
 *
 * fork, execv and wait are abstracted: whether each fork succeeds is a
 * parameter, and wait(NULL) reaps an arbitrary running child. The run is
 * recorded as a trace of launches and waits.
 */
module Movie {
  import opened Wrappers
  import opened FrameNames

  /** Number of frames of a movie. */
  const Frames: nat := 50

  /** Factor by which the scale shrinks from one frame to the next. */
  const ZoomFactor: real := 0.97

  /** b^n; for 0 < b <= 1 it lies in (0, 1]. */
  function Pow(b: real, n: nat): (r: real)
    ensures 0.0 < b <= 1.0 ==> 0.0 < r <= 1.0
  {
    if n == 0 then 1.0
    else
      var p := Pow(b, n - 1);
      assert 0.0 < b <= 1.0 ==> b * p <= p by {
        if 0.0 < b <= 1.0 {
          ProductNonNegative(1.0 - b, p);
        }
      }
      b * p
  }

  /** The x scale of frame f: xscale * 0.97^f. */
  function FrameScale(xscale: real, frame: nat): real {
    xscale * Pow(ZoomFactor, frame)
  }

  lemma ProductNonNegative(a: real, b: real)
    requires 0.0 <= a && 0.0 <= b
    ensures 0.0 <= a * b
  {
  }

  /** Frame 0 has the initial scale and each frame is 0.97 times the one
      before it. */
  lemma FrameScaleStep(xscale: real, frame: nat)
    ensures FrameScale(xscale, 0) == xscale
    ensures FrameScale(xscale, frame + 1) == FrameScale(xscale, frame) * ZoomFactor
  {
    assert Pow(ZoomFactor, frame + 1) == ZoomFactor * Pow(ZoomFactor, frame);
  }

  /** For a positive initial scale every frame zooms in: the scale stays
      positive, never exceeds the initial one and strictly shrinks. */
  lemma FrameScaleShrinks(xscale: real, frame: nat)
    requires 0.0 < xscale
    ensures 0.0 < FrameScale(xscale, frame + 1) < FrameScale(xscale, frame) <= xscale
  {
    FrameScaleStep(xscale, frame);
    var s := FrameScale(xscale, frame);
    var p := Pow(ZoomFactor, frame);
    assert 0.0 < s <= xscale by {
      assert 0.0 <= 1.0 - p;
      assert xscale - s == xscale * (1.0 - p);
      ProductNonNegative(xscale, 1.0 - p);
    }
  }

  /** The settings main hands to movie mode. */
  datatype MovieConfig = MovieConfig(
    xcenter: real, ycenter: real, xscale: real,
    width: int, height: int, maxIter: int, prefix: string)

  /** The arguments a child is re-executed with (-x -y -s -W -H -m -o),
      together with the frame it renders. */
  datatype FrameJob = FrameJob(
    frame: nat, xcenter: real, ycenter: real, xscale: real,
    width: int, height: int, maxIter: int, output: string)

  /** The job of frame `frame`: its output name reads back as the frame,
      and its scale zooms in from the initial one. */
  function JobFor(cfg: MovieConfig, frame: nat): (j: FrameJob)
    ensures j.frame == frame && FrameIndexOf(cfg.prefix, j.output) == Some(frame)
    ensures 0.0 < cfg.xscale ==> 0.0 < j.xscale <= cfg.xscale
  {
    FrameIndexRoundTrip(cfg.prefix, frame);
    assert 0.0 < cfg.xscale ==> 0.0 < FrameScale(cfg.xscale, frame) <= cfg.xscale by {
      if 0.0 < cfg.xscale {
        FrameScaleShrinks(cfg.xscale, frame);
      }
    }
    FrameJob(frame, cfg.xcenter, cfg.ycenter, FrameScale(cfg.xscale, frame),
             cfg.width, cfg.height, cfg.maxIter, FullFrameName(cfg.prefix, frame))
  }

  /** Different frames of one movie write different files, and share the
      centre, size and cap. */
  lemma JobsWriteDistinctFiles(cfg: MovieConfig, f: nat, g: nat)
    requires f != g
    ensures JobFor(cfg, f).output != JobFor(cfg, g).output
    ensures JobFor(cfg, f).xcenter == JobFor(cfg, g).xcenter && JobFor(cfg, f).ycenter == JobFor(cfg, g).ycenter
  {
    FullFrameNamesDistinct(cfg.prefix, f, g);
  }

  /**
   * A step of the scheduler: a launch (fork; `forked` is false when fork
   * failed) or a wait, which reaps the child rendering some frame, or
   * nothing when no child is left.
   */
  datatype Event = Launch(job: FrameJob, forked: bool) | Reap(child: Option<nat>)

  /** The jobs launched, in order. */
  function Launched(t: seq<Event>): seq<FrameJob> {
    if t == [] then []
    else Launched(t[..|t| - 1]) + (if t[|t| - 1].Launch? then [t[|t| - 1].job] else [])
  }

  /** The number of waits. */
  function Waits(t: seq<Event>): nat {
    if t == [] then 0 else Waits(t[..|t| - 1]) + (if t[|t| - 1].Reap? then 1 else 0)
  }

  /** The counter `active`: launches minus waits. */
  function Active(t: seq<Event>): int {
    |Launched(t)| - Waits(t)
  }

  /** The frames whose fork produced a child. */
  function Forked(t: seq<Event>): seq<nat> {
    if t == [] then []
    else Forked(t[..|t| - 1]) + (if t[|t| - 1].Launch? && t[|t| - 1].forked then [t[|t| - 1].job.frame] else [])
  }

  /** The frames whose child was reaped, in order. */
  function Reaped(t: seq<Event>): seq<nat> {
    if t == [] then []
    else Reaped(t[..|t| - 1]) + (if t[|t| - 1].Reap? && t[|t| - 1].child.Some? then [t[|t| - 1].child.value] else [])
  }

  /** Whether event e may follow trace t under the window discipline: a
      launch only while fewer than cap frames are active, a wait only when
      some frame is active and either the window is full or every frame
      has been launched. */
  predicate StepAllowed(t: seq<Event>, e: Event, cap: int) {
    if e.Launch? then Active(t) < cap
    else 0 < Active(t) && (cap <= Active(t) || |Launched(t)| == Frames)
  }

  /** Every step of t is allowed. */
  predicate FollowsWindow(t: seq<Event>, cap: int) {
    t == [] || (FollowsWindow(t[..|t| - 1], cap) && StepAllowed(t[..|t| - 1], t[|t| - 1], cap))
  }

  /** What wait(NULL) may return after trace t: a child that was forked
      and is not yet reaped, or nothing when every forked child has been
      reaped. */
  predicate ReapMatchesChild(t: seq<Event>, e: Event) {
    e.Reap? ==>
      if e.child.Some? then multiset(Reaped(t))[e.child.value] < multiset(Forked(t))[e.child.value]
      else multiset(Reaped(t)) == multiset(Forked(t))
  }

  /** Every wait of t returns what wait(NULL) may return at that point. */
  predicate ReapsFollowForks(t: seq<Event>) {
    t == [] || (ReapsFollowForks(t[..|t| - 1]) && ReapMatchesChild(t[..|t| - 1], t[|t| - 1]))
  }

  /** How the trace functions extend by one event. */
  lemma AppendEvent(t: seq<Event>, e: Event, cap: int)
    ensures Launched(t + [e]) == Launched(t) + (if e.Launch? then [e.job] else [])
    ensures Waits(t + [e]) == Waits(t) + (if e.Reap? then 1 else 0)
    ensures Forked(t + [e]) == Forked(t) + (if e.Launch? && e.forked then [e.job.frame] else [])
    ensures Reaped(t + [e]) == Reaped(t) + (if e.Reap? && e.child.Some? then [e.child.value] else [])
    ensures FollowsWindow(t + [e], cap) <==> FollowsWindow(t, cap) && StepAllowed(t, e, cap)
    ensures ReapsFollowForks(t + [e]) <==> ReapsFollowForks(t) && ReapMatchesChild(t, e)
  {
    assert (t + [e])[..|t|] == t;
  }

  /** Under the window discipline the counter stays within [0, cap]
      after every step, and is below cap before every launch. */
  lemma {:induction false} WindowBounds(t: seq<Event>, cap: int)
    requires 1 <= cap && FollowsWindow(t, cap)
    ensures forall n :: 0 <= n <= |t| ==> 0 <= Active(t[..n]) <= cap
    ensures forall n :: 0 <= n < |t| && t[n].Launch? ==> Active(t[..n]) < cap
  {
    if t != [] {
      var init, last := t[..|t| - 1], t[|t| - 1];
      assert t == init + [last];
      WindowBounds(init, cap);
      AppendEvent(init, last, cap);
      forall n | 0 <= n <= |init|
        ensures t[..n] == init[..n]
      {
      }
      assert t[..|t|] == t;
    }
  }

  lemma AppendAssociates(a: seq<Event>, b: seq<Event>, c: seq<Event>)
    ensures (a + b) + c == a + (b + c)
  {
  }

  /** A trace extended by events that are all waits. */
  lemma {:induction false} ExtendedByWaits(t: seq<Event>, ws: seq<Event>)
    requires Waits(ws) == |ws|
    ensures t <= t + ws
    ensures forall k :: |t| <= k < |t + ws| ==> (t + ws)[k].Reap?
  {
    if ws != [] {
      var init, last := ws[..|ws| - 1], ws[|ws| - 1];
      assert ws == init + [last];
      WaitsBounded(init);
      ExtendedByWaits(t, init);
      assert t + ws == (t + init) + [last];
    }
  }

  lemma {:induction false} WaitsBounded(ws: seq<Event>)
    ensures Waits(ws) <= |ws|
  {
    if ws != [] {
      WaitsBounded(ws[..|ws| - 1]);
    }
  }

  /** One step keeps the reaped children among the forked ones. */
  lemma ReapedWithinForkedStep(t: seq<Event>, e: Event)
    requires multiset(Reaped(t)) <= multiset(Forked(t))
    requires ReapMatchesChild(t, e)
    ensures multiset(Reaped(t + [e])) <= multiset(Forked(t + [e]))
  {
    AppendEvent(t, e, 0);
    if e.Launch? {
      assert multiset(Forked(t)) <= multiset(Forked(t + [e]));
    } else if e.child.Some? {
      assert multiset(Reaped(t + [e])) == multiset(Reaped(t)) + multiset{e.child.value};
    }
  }

  /** One allowed step keeps the children still running (forked, not yet
      reaped) within the counter. */
  lemma RunningWithinActiveStep(t: seq<Event>, e: Event, cap: int)
    requires |Forked(t)| - |Reaped(t)| <= Active(t)
    requires StepAllowed(t, e, cap) && ReapMatchesChild(t, e)
    ensures |Forked(t + [e])| - |Reaped(t + [e])| <= Active(t + [e])
  {
    AppendEvent(t, e, cap);
    if e.Reap? && e.child.None? {
      assert |multiset(Reaped(t))| == |multiset(Forked(t))|;
    }
  }

  /** Every wait of a trace satisfying ReapsFollowForks returns a forked,
      not yet reaped child, or nothing exactly when none is left. */
  lemma {:induction false} ReapsMatchAlong(t: seq<Event>)
    requires ReapsFollowForks(t)
    ensures forall n :: 0 <= n < |t| ==> ReapMatchesChild(t[..n], t[n])
  {
    if t != [] {
      var init := t[..|t| - 1];
      ReapsMatchAlong(init);
      forall n | 0 <= n < |t|
        ensures ReapMatchesChild(t[..n], t[n])
      {
        if n < |init| {
          assert t[..n] == init[..n] && t[n] == init[n];
        }
      }
    }
  }

  /** Following the window and matching reaps to children are properties
      of every prefix of a trace that has them. */
  lemma PrefixKeepsDiscipline(t: seq<Event>, cap: int, n: nat)
    requires FollowsWindow(t, cap) && ReapsFollowForks(t) && n <= |t|
    ensures FollowsWindow(t[..n], cap) && ReapsFollowForks(t[..n])
    decreases |t| - n
  {
    if n < |t| {
      PrefixKeepsDiscipline(t, cap, n + 1);
      var u := t[..n + 1];
      assert u[..|u| - 1] == t[..n];
    } else {
      assert t[..n] == t;
    }
  }

  /** At the end of such a trace the reaped children are among the forked
      ones, and the children still running never outnumber `active`. */
  lemma {:induction false} RunningWithinActiveAtEnd(t: seq<Event>, cap: int)
    requires FollowsWindow(t, cap) && ReapsFollowForks(t)
    ensures multiset(Reaped(t)) <= multiset(Forked(t))
    ensures |Forked(t)| - |Reaped(t)| <= Active(t)
  {
    if t != [] {
      var init, last := t[..|t| - 1], t[|t| - 1];
      assert t == init + [last];
      RunningWithinActiveAtEnd(init, cap);
      ReapedWithinForkedStep(init, last);
      RunningWithinActiveStep(init, last, cap);
    }
  }

  /**
   * Along a trace that follows the window and whose waits return only
   * children that exist, the reaped children are always among the forked
   * ones, and the children running (forked, not yet reaped) never
   * outnumber the counter `active`.
   */
  lemma RunningWithinActive(t: seq<Event>, cap: int)
    requires FollowsWindow(t, cap) && ReapsFollowForks(t)
    ensures forall n :: 0 <= n <= |t| ==> multiset(Reaped(t[..n])) <= multiset(Forked(t[..n]))
    ensures forall n :: 0 <= n <= |t| ==> |Forked(t[..n])| - |Reaped(t[..n])| <= Active(t[..n])
  {
    forall n | 0 <= n <= |t|
      ensures multiset(Reaped(t[..n])) <= multiset(Forked(t[..n]))
      ensures |Forked(t[..n])| - |Reaped(t[..n])| <= Active(t[..n])
    {
      PrefixKeepsDiscipline(t, cap, n);
      RunningWithinActiveAtEnd(t[..n], cap);
    }
  }

  /**
   * wait(NULL): blocks until some running child ends and reaps it; with
   * no child left it returns at once.
   */
  method WaitAny(running: set<nat>) returns (reaped: Option<nat>, rest: set<nat>)
    ensures reaped == None <==> running == {}
    ensures reaped.Some? ==> reaped.value in running && rest == running - {reaped.value}
    ensures reaped == None ==> rest == {}
  {
    if running == {} {
      reaped, rest := None, {};
    } else {
      var child :| child in running;
      reaped, rest := Some(child), running - {child};
    }
  }

  /** The jobs of frames 0 .. n-1, in order. */
  function Jobs(cfg: MovieConfig, n: nat): seq<FrameJob> {
    if n == 0 then [] else Jobs(cfg, n - 1) + [JobFor(cfg, n - 1)]
  }

  lemma {:induction false} JobsAt(cfg: MovieConfig, n: nat)
    ensures |Jobs(cfg, n)| == n
    ensures forall f :: 0 <= f < n ==> Jobs(cfg, n)[f] == JobFor(cfg, f)
  {
    if n > 0 {
      JobsAt(cfg, n - 1);
    }
  }

  /** The frames below n whose fork succeeds, in increasing order. */
  function ForkedBelow(forkSucceeds: seq<bool>, n: nat): seq<nat>
    requires n <= |forkSucceeds|
  {
    if n == 0 then []
    else ForkedBelow(forkSucceeds, n - 1) + (if forkSucceeds[n - 1] then [n - 1] else [])
  }

  /** ForkedBelow holds exactly the frames below n whose fork succeeds,
      each once. */
  lemma {:induction false} ForkedBelowSpec(forkSucceeds: seq<bool>, n: nat)
    requires n <= |forkSucceeds|
    ensures forall f :: f in ForkedBelow(forkSucceeds, n) <==> 0 <= f < n && forkSucceeds[f]
    ensures forall i, j :: 0 <= i < j < |ForkedBelow(forkSucceeds, n)| ==>
      ForkedBelow(forkSucceeds, n)[i] < ForkedBelow(forkSucceeds, n)[j]
  {
    if n > 0 {
      ForkedBelowSpec(forkSucceeds, n - 1);
      var prev := ForkedBelow(forkSucceeds, n - 1);
      assert forall i :: 0 <= i < |prev| ==> prev[i] < n - 1 by {
        forall i | 0 <= i < |prev|
          ensures prev[i] < n - 1
        {
          assert prev[i] in prev;
        }
      }
    }
  }

  /** The counter and the launched jobs after launching frames
      0 .. frame-1 under the window discipline. */
  ghost predicate Scheduled(t: seq<Event>, cap: int, cfg: MovieConfig, frame: nat, active: int) {
    && FollowsWindow(t, cap)
    && 0 <= active <= cap
    && active == Active(t)
    && Launched(t) == Jobs(cfg, frame)
  }

  /** The running children are the frames forked and not yet reaped. */
  ghost predicate ChildrenTracked(t: seq<Event>, forkSucceeds: seq<bool>, frame: nat, running: set<nat>)
    requires frame <= |forkSucceeds|
  {
    && Forked(t) == ForkedBelow(forkSucceeds, frame)
    && multiset(Forked(t)) == multiset(Reaped(t)) + multiset(running)
    && ReapsFollowForks(t)
  }

  /** The scheduler's bookkeeping: every running child is counted as
      active. */
  ghost predicate Consistent(t: seq<Event>, cap: int, cfg: MovieConfig, forkSucceeds: seq<bool>, frame: nat,
                             active: int, running: set<nat>)
    requires frame <= |forkSucceeds|
  {
    Scheduled(t, cap, cfg, frame, active) && ChildrenTracked(t, forkSucceeds, frame, running) && |running| <= active
  }

  lemma ReapTracksChildren(t: seq<Event>, forkSucceeds: seq<bool>, frame: nat,
                           running: set<nat>, reaped: Option<nat>, rest: set<nat>)
    requires frame <= |forkSucceeds|
    requires ChildrenTracked(t, forkSucceeds, frame, running)
    requires reaped == None <==> running == {}
    requires reaped.Some? ==> reaped.value in running && rest == running - {reaped.value}
    requires reaped == None ==> rest == {}
    ensures ChildrenTracked(t + [Reap(reaped)], forkSucceeds, frame, rest)
    ensures |rest| == if reaped.Some? then |running| - 1 else 0
  {
    AppendEvent(t, Reap(reaped), 0);
    WaitMatchesRunning(t, running, reaped);
    var t' := t + [Reap(reaped)];
    assert Forked(t') == Forked(t);
    if reaped.Some? {
      var d := reaped.value;
      RemoveOne(running, d, rest);
      assert multiset(Reaped(t')) == multiset(Reaped(t)) + multiset{d};
    } else {
      assert Reaped(t') == Reaped(t);
      assert rest == running;
    }
  }

  lemma RemoveOne(running: set<nat>, d: nat, rest: set<nat>)
    requires d in running && rest == running - {d}
    ensures |rest| == |running| - 1
    ensures multiset(running) == multiset(rest) + multiset{d}
  {
    assert running == rest + {d} && d !in rest;
  }

  /** A child wait(NULL) returns is one forked and not yet reaped, and it
      returns nothing only when every forked child has been reaped. */
  lemma WaitMatchesRunning(t: seq<Event>, running: set<nat>, reaped: Option<nat>)
    requires multiset(Forked(t)) == multiset(Reaped(t)) + multiset(running)
    requires reaped == None <==> running == {}
    requires reaped.Some? ==> reaped.value in running
    ensures ReapMatchesChild(t, Reap(reaped))
  {
    if reaped.None? {
      assert multiset(running) == multiset{};
    }
  }

  /** A wait keeps the bookkeeping consistent and counts one frame less as
      active. */
  lemma ReapKeepsConsistent(t: seq<Event>, cap: int, cfg: MovieConfig, forkSucceeds: seq<bool>, frame: nat,
                            active: int, running: set<nat>, reaped: Option<nat>, rest: set<nat>)
    requires frame <= |forkSucceeds|
    requires Consistent(t, cap, cfg, forkSucceeds, frame, active, running)
    requires 0 < active && (cap <= active || frame == Frames)
    requires reaped == None <==> running == {}
    requires reaped.Some? ==> reaped.value in running && rest == running - {reaped.value}
    requires reaped == None ==> rest == {}
    ensures Consistent(t + [Reap(reaped)], cap, cfg, forkSucceeds, frame, active - 1, rest)
  {
    AppendEvent(t, Reap(reaped), cap);
    JobsAt(cfg, frame);
    ReapTracksChildren(t, forkSucceeds, frame, running, reaped, rest);
  }

  lemma LaunchTracksChildren(t: seq<Event>, cfg: MovieConfig, forkSucceeds: seq<bool>, frame: nat,
                             running: set<nat>)
    requires frame < |forkSucceeds|
    requires ChildrenTracked(t, forkSucceeds, frame, running)
    ensures var e := Launch(JobFor(cfg, frame), forkSucceeds[frame]);
      var running' := if forkSucceeds[frame] then running + {frame} else running;
      ChildrenTracked(t + [e], forkSucceeds, frame + 1, running') && |running'| <= |running| + 1
  {
    var e := Launch(JobFor(cfg, frame), forkSucceeds[frame]);
    AppendEvent(t, e, 0);
    var t' := t + [e];
    assert Reaped(t') == Reaped(t);
    if forkSucceeds[frame] {
      assert Forked(t') == Forked(t) + [frame];
      assert ForkedBelow(forkSucceeds, frame + 1) == ForkedBelow(forkSucceeds, frame) + [frame];
      assert frame !in running by {
        ForkedBelowSpec(forkSucceeds, frame);
        assert multiset(Forked(t))[frame] == 0;
        assert multiset(running)[frame] <= multiset(Forked(t))[frame];
      }
      calc {
        multiset(Forked(t'));
        multiset(Forked(t)) + multiset{frame};
        multiset(Reaped(t')) + multiset(running) + multiset{frame};
        { assert multiset(running + {frame}) == multiset(running) + multiset{frame}; }
        multiset(Reaped(t')) + multiset(running + {frame});
      }
    } else {
      assert Forked(t') == Forked(t);
    }
  }

  /** Launching frame `frame` keeps the bookkeeping consistent and counts
      one frame more as active. */
  lemma LaunchKeepsConsistent(t: seq<Event>, cap: int, cfg: MovieConfig, forkSucceeds: seq<bool>, frame: nat,
                              active: int, running: set<nat>)
    requires frame < |forkSucceeds|
    requires Consistent(t, cap, cfg, forkSucceeds, frame, active, running) && active < cap
    ensures var e := Launch(JobFor(cfg, frame), forkSucceeds[frame]);
      Consistent(t + [e], cap, cfg, forkSucceeds, frame + 1, active + 1,
                 if forkSucceeds[frame] then running + {frame} else running)
  {
    var e := Launch(JobFor(cfg, frame), forkSucceeds[frame]);
    AppendEvent(t, e, cap);
    LaunchTracksChildren(t, cfg, forkSucceeds, frame, running);
  }

  /** One `wait(NULL); active--;` of run_movie_mode, recorded as a Reap
      event. */
  method WaitOnce(cap: int, cfg: MovieConfig, forkSucceeds: seq<bool>, frame: nat,
                  trace: seq<Event>, active: int, running: set<nat>)
    returns (e: Event, running': set<nat>)
    requires frame <= |forkSucceeds|
    requires Consistent(trace, cap, cfg, forkSucceeds, frame, active, running)
    requires 0 < active && (cap <= active || frame == Frames)
    ensures e.Reap?
    ensures Consistent(trace + [e], cap, cfg, forkSucceeds, frame, active - 1, running')
  {
    var reaped, rest := WaitAny(running);
    ReapKeepsConsistent(trace, cap, cfg, forkSucceeds, frame, active, running, reaped, rest);
    e, running' := Reap(reaped), rest;
  }

  /**
   * The wait loops of run_movie_mode: `while (active > floor) { wait(NULL);
   * active--; }`. Before a launch floor is num_children - 1 (wait while
   * the window is full); in the final drain it is 0. Each wait is
   * recorded in the trace.
   */
  method WaitWhileAbove(floor: int, cap: int, cfg: MovieConfig, forkSucceeds: seq<bool>, frame: nat,
                        trace: seq<Event>, active: int, running: set<nat>)
    returns (trace': seq<Event>, active': int, running': set<nat>)
    requires frame <= |forkSucceeds|
    requires Consistent(trace, cap, cfg, forkSucceeds, frame, active, running)
    requires floor == cap - 1 || (floor == 0 && frame == Frames)
    requires 0 <= floor
    ensures Consistent(trace', cap, cfg, forkSucceeds, frame, active', running')
    ensures active' == if active <= floor then active else floor
    ensures trace <= trace' && |trace'| - |trace| == active - active'
    ensures forall k :: |trace| <= k < |trace'| ==> trace'[k].Reap?
  {
    var waits: seq<Event> := [];
    active', running' := active, running;
    assert trace + waits == trace;
    while active' > floor
      invariant Consistent(trace + waits, cap, cfg, forkSucceeds, frame, active', running')
      invariant active <= floor ==> active' == active
      invariant active > floor ==> floor <= active'
      invariant |waits| == active - active' && Waits(waits) == |waits|
      decreases active'
    {
      var e, rest := WaitOnce(cap, cfg, forkSucceeds, frame, trace + waits, active', running');
      assert Consistent(trace + (waits + [e]), cap, cfg, forkSucceeds, frame, active' - 1, rest) by {
        AppendAssociates(trace, waits, [e]);
      }
      assert Waits(waits + [e]) == |waits + [e]| by {
        AppendEvent(waits, e, cap);
      }
      waits, running' := waits + [e], rest;
      active' := active' - 1;
    }
    trace' := trace + waits;
    ExtendedByWaits(trace, waits);
  }

  /**
   * Launching frame `frame` (the fork of run_movie_mode): the child gets
   * the frame's job when the fork succeeds, and active is incremented in
   * either case.
   */
  method LaunchFrame(cap: int, cfg: MovieConfig, forkSucceeds: seq<bool>, frame: nat,
                     trace: seq<Event>, active: int, running: set<nat>)
    returns (trace': seq<Event>, active': int, running': set<nat>)
    requires frame < |forkSucceeds|
    requires Consistent(trace, cap, cfg, forkSucceeds, frame, active, running) && active < cap
    ensures Consistent(trace', cap, cfg, forkSucceeds, frame + 1, active', running')
    ensures trace' == trace + [Launch(JobFor(cfg, frame), forkSucceeds[frame])]
    ensures active' == active + 1
  {
    var ok := forkSucceeds[frame];
    LaunchKeepsConsistent(trace, cap, cfg, forkSucceeds, frame, active, running);
    trace' := trace + [Launch(JobFor(cfg, frame), ok)];
    running' := if ok then running + {frame} else running;
    active' := active + 1;
  }

  /**
   * run_movie_mode. Frames 0 .. 49 are launched in order, each with its
   * scale and output name; the counter never leaves [0, num_children] and
   * is below num_children at every launch; after the final drain it is 0,
   * the waits equal the launches, and the frames reaped are exactly the
   * frames whose fork succeeded, each once. Every wait reaps a child that
   * was forked and not yet reaped, or nothing only when no child is left
   * (ReapsFollowForks). A failed fork still counts as
   * active, so its frame is silently missing. The result is 0 in every
   * case.
   */
  method RunMovieMode(numChildren: int, cfg: MovieConfig, forkSucceeds: seq<bool>)
    returns (status: int, trace: seq<Event>)
    requires 1 <= numChildren
    requires |forkSucceeds| == Frames
    ensures status == 0
    ensures Launched(trace) == Jobs(cfg, Frames)
    ensures FollowsWindow(trace, numChildren)
    ensures Active(trace) == 0 && Waits(trace) == Frames
    ensures Forked(trace) == ForkedBelow(forkSucceeds, Frames)
    ensures multiset(Reaped(trace)) == multiset(Forked(trace))
    ensures ReapsFollowForks(trace)
  {
    var active := 0;
    var running: set<nat> := {};
    trace := [];
    for frame := 0 to Frames
      invariant Consistent(trace, numChildren, cfg, forkSucceeds, frame, active, running)
    {
      trace, active, running := WaitWhileAbove(numChildren - 1, numChildren, cfg, forkSucceeds, frame, trace, active, running);
      trace, active, running := LaunchFrame(numChildren, cfg, forkSucceeds, frame, trace, active, running);
    }
    trace, active, running := WaitWhileAbove(0, numChildren, cfg, forkSucceeds, Frames, trace, active, running);
    JobsAt(cfg, Frames);
    status := 0;
  }

  /**
   * What a run of the scheduler guarantees, stated per frame and per
   * step: frame f is launched f-th with its own job; at every point of the
   * run 0 <= active <= cap, and active < cap before every launch; every
   * frame whose fork succeeded is reaped exactly once, and no other.
   */
  lemma {:induction false} SchedulerRunGuarantees(t: seq<Event>, cap: int, cfg: MovieConfig, forkSucceeds: seq<bool>)
    requires 1 <= cap && |forkSucceeds| == Frames
    requires Launched(t) == Jobs(cfg, Frames) && FollowsWindow(t, cap)
    requires Forked(t) == ForkedBelow(forkSucceeds, Frames)
    requires multiset(Reaped(t)) == multiset(Forked(t))
    ensures |Launched(t)| == Frames
    ensures forall f :: 0 <= f < Frames ==> Launched(t)[f] == JobFor(cfg, f)
    ensures forall n :: 0 <= n <= |t| ==> 0 <= Active(t[..n]) <= cap
    ensures forall n :: 0 <= n < |t| && t[n].Launch? ==> Active(t[..n]) < cap
    ensures forall f :: f in Reaped(t) <==> 0 <= f < Frames && forkSucceeds[f]
    ensures forall f :: multiset(Reaped(t))[f] <= 1
  {
    JobsAt(cfg, Frames);
    WindowBounds(t, cap);
    ForkedBelowSpec(forkSucceeds, Frames);
    forall f
      ensures f in Reaped(t) <==> f in Forked(t)
    {
      assert f in Reaped(t) <==> f in multiset(Reaped(t));
      assert f in Forked(t) <==> f in multiset(Forked(t));
    }
    IncreasingOnce(Forked(t));
  }

  /**
   * What a run of the scheduler guarantees about the children, step by
   * step: every wait reaps a child that was forked and not yet reaped, or
   * nothing exactly when no child is left; and at every point the
   * children running (forked, not yet reaped) number at most `active`,
   * which is at most cap.
   */
  lemma SchedulerChildrenGuarantees(t: seq<Event>, cap: int)
    requires 1 <= cap && FollowsWindow(t, cap) && ReapsFollowForks(t)
    ensures forall n :: 0 <= n < |t| && t[n].Reap? && t[n].child.Some? ==>
      multiset(Reaped(t[..n]))[t[n].child.value] < multiset(Forked(t[..n]))[t[n].child.value]
    ensures forall n :: 0 <= n < |t| && t[n] == Reap(None) ==> multiset(Reaped(t[..n])) == multiset(Forked(t[..n]))
    ensures forall n :: 0 <= n <= |t| ==> |Forked(t[..n])| - |Reaped(t[..n])| <= Active(t[..n]) <= cap
  {
    WindowBounds(t, cap);
    ReapsMatchAlong(t);
    RunningWithinActive(t, cap);
  }

  /** In a strictly increasing sequence every value occurs at most once. */
  lemma {:induction false} IncreasingOnce(s: seq<nat>)
    requires forall i, j :: 0 <= i < j < |s| ==> s[i] < s[j]
    ensures forall f :: multiset(s)[f] <= 1
  {
    if s != [] {
      var init := s[..|s| - 1];
      assert s == init + [s[|s| - 1]];
      IncreasingOnce(init);
      assert s[|s| - 1] !in init;
      forall f
        ensures multiset(s)[f] <= 1
      {
        assert multiset(s) == multiset(init) + multiset{s[|s| - 1]};
      }
    }
  }
}
