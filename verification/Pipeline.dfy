/** The pipelined connection of _RedisHeader.cpp over a hiredis that may fail at any call, and the pool
    of DbConn.cpp that keeps synchronous and appended commands apart. */
module Pipeline {
  import opened Bytes
  import opened HashMix
  import opened HashRing

  datatype Command = Auth | Select | Request(id: nat) | Keys(pattern: nat) | Del(name: nat)

  /** A reply lists names only if it answers KEYS and is no error. */
  datatype Reply = Reply(to: Command, error: bool, listed: seq<nat>)

  /** A redisContext: what it was answered so far, and the commands that still await their reply. */
  datatype Conn = Conn(replies: seq<Reply>, owed: seq<Command>, err: bool)

  datatype Status = Ok | Closed

  /** RedisHeader.h line 77 */
  const MAX_COMMIT_CNT: nat := 5000

  function Answered(replies: seq<Reply>): seq<Command> {
    seq(|replies|, i requires 0 <= i < |replies| => replies[i].to)
  }

  /** Every command that this connection has taken, oldest first. */
  function Sent(c: Conn): seq<Command> {
    Answered(c.replies) + c.owed
  }

  /** Whose reply a synchronous command is given: the oldest that is owed. */
  function Head(c: Conn, cmd: Command): Command {
    (c.owed + [cmd])[0]
  }

  function Dels(names: seq<nat>): seq<Command> {
    seq(|names|, i requires 0 <= i < |names| => Del(names[i]))
  }

  lemma NoDels(names: seq<nat>)
    ensures Dels(names[..0]) == []
  {
  }

  lemma OneDelMore(names: seq<nat>, i: nat)
    requires i < |names|
    ensures Dels(names[..i + 1]) == Dels(names[..i]) + [Del(names[i])]
  {
  }

  lemma FirstDels(names: seq<nat>, i: nat)
    requires i <= |names|
    ensures Dels(names[..i]) <= Dels(names)
  {
  }

  /** `at` tells where in `listed` the names stand: one behind the other. */
  predicate Picks(names: seq<nat>, listed: seq<nat>, at: seq<nat>) {
    |at| == |names| && (forall i | 0 <= i < |at| :: at[i] < |listed| && listed[at[i]] == names[i]) &&
    forall i, j | 0 <= i < j < |at| :: at[i] < at[j]
  }

  /** What is listed but not spared: in the order of the list, each name as often as there, and no spared one. */
  ghost predicate Left(names: seq<nat>, listed: seq<nat>, spared: set<nat>) {
    (exists at: seq<nat> :: Picks(names, listed, at)) &&
    forall x: nat :: multiset(names)[x] == if x in spared then 0 else multiset(listed)[x]
  }

  lemma NothingLeft(spared: set<nat>)
    ensures Left([], [], spared)
  {
    assert Picks([], [], []);
  }

  lemma LeftMore(names: seq<nat>, listed: seq<nat>, x: nat, spared: set<nat>)
    requires Left(names, listed, spared)
    ensures Left(if x in spared then names else names + [x], listed + [x], spared)
  {
    var at: seq<nat> :| Picks(names, listed, at);
    if x in spared {
      assert Picks(names, listed + [x], at);
    } else {
      PicksMore(names, listed, at, x);
    }
  }

  lemma PicksMore(names: seq<nat>, listed: seq<nat>, at: seq<nat>, x: nat)
    requires Picks(names, listed, at)
    ensures Picks(names + [x], listed + [x], at + [|listed|])
  {
    var end: nat := |listed|;
    var at': seq<nat> := at + [end];
    assert forall i | 0 <= i < |at| :: at'[i] == at[i];
  }

  lemma {:induction false} PicksNoMore(names: seq<nat>, listed: seq<nat>, at: seq<nat>, x: nat)
    requires Picks(names, listed, at)
    ensures multiset(names)[x] <= multiset(listed)[x]
    decreases |names|
  {
    if names != [] {
      var m := |names| - 1;
      var k := at[m];
      assert names == names[..m] + [names[m]];
      assert listed == listed[..k] + [listed[k]] + listed[k + 1..];
      PicksNoMore(names[..m], listed[..k], at[..m], x);
    }
  }

  /** The last of the list is the last of what is left, unless it is spared. */
  lemma LeftLast(names: seq<nat>, listed: seq<nat>, x: nat, spared: set<nat>)
    requires Left(names, listed + [x], spared)
    ensures x in spared ==> Left(names, listed, spared)
    ensures x !in spared ==> names != [] && names[|names| - 1] == x && Left(names[..|names| - 1], listed, spared)
  {
    var at: seq<nat> :| Picks(names, listed + [x], at);
    if names != [] && at[|names| - 1] == |listed| {
      PickedLast(names, listed, x, at, spared);
    } else {
      PicksBefore(names, listed, x, at);
      PicksNoMore(names, listed, at, x);
    }
  }

  lemma PickedLast(names: seq<nat>, listed: seq<nat>, x: nat, at: seq<nat>, spared: set<nat>)
    requires Picks(names, listed + [x], at) && names != [] && at[|names| - 1] == |listed|
    requires forall y: nat :: multiset(names)[y] == if y in spared then 0 else multiset(listed + [x])[y]
    ensures x !in spared && names[|names| - 1] == x && Left(names[..|names| - 1], listed, spared)
  {
    var m := |names| - 1;
    assert Picks(names[..m], listed, at[..m]);
    hide Picks;
    assert names == names[..m] + [x];
    CountsBefore(names[..m], listed, x, spared);
  }

  lemma CountsBefore(names: seq<nat>, listed: seq<nat>, x: nat, spared: set<nat>)
    requires forall y: nat :: multiset(names + [x])[y] == if y in spared then 0 else multiset(listed + [x])[y]
    ensures x !in spared
    ensures forall y: nat :: multiset(names)[y] == if y in spared then 0 else multiset(listed)[y]
  {
    assert multiset(names + [x])[x] > 0;
    forall y: nat ensures multiset(names)[y] == if y in spared then 0 else multiset(listed)[y] {
      assert multiset(names + [x])[y] == multiset(names)[y] + if y == x then 1 else 0;
    }
  }

  lemma PicksBefore(names: seq<nat>, listed: seq<nat>, x: nat, at: seq<nat>)
    requires Picks(names, listed + [x], at) && (names != [] ==> at[|names| - 1] != |listed|)
    ensures Picks(names, listed, at)
  {
    forall i | 0 <= i < |at| ensures at[i] < |listed| {
      assert i < |names| - 1 ==> at[i] < at[|names| - 1];
    }
  }

  lemma LeftNone(names: seq<nat>, spared: set<nat>)
    requires Left(names, [], spared)
    ensures names == []
  {
    assert names != [] ==> multiset(names)[names[0]] > 0;
  }

  /** That determines the names. */
  lemma {:induction false} LeftUnique(a: seq<nat>, b: seq<nat>, listed: seq<nat>, spared: set<nat>)
    requires Left(a, listed, spared) && Left(b, listed, spared)
    ensures a == b
    decreases |listed|
  {
    hide Left;
    if listed == [] {
      LeftNone(a, spared);
      LeftNone(b, spared);
    } else {
      var n, x := |listed| - 1, listed[|listed| - 1];
      assert listed == listed[..n] + [x];
      LeftLast(a, listed[..n], x, spared);
      LeftLast(b, listed[..n], x, spared);
      if x in spared {
        LeftUnique(a, b, listed[..n], spared);
      } else {
        LeftUnique(a[..|a| - 1], b[..|b| - 1], listed[..n], spared);
      }
    }
  }

  // ------------------------------------------------------------------------------------------------
  // hiredis: replies come in the order of the commands; a context that has failed must not be used again
  // ------------------------------------------------------------------------------------------------

  method Connect() returns (c: Option<Conn>)
    ensures c.Some? ==> Sent(c.value) == []
  {
    c := None;
    if * {
      var failed: bool := *;
      c := Some(Conn([], [], failed));
    }
  }

  method AppendCommand(c: Conn, cmd: Command) returns (d: Conn, ok: bool)
    requires !c.err
    ensures ok == !d.err
    ensures d == if ok then c.(owed := c.owed + [cmd]) else c.(err := true)
  {
    ok := *;
    d := if ok then c.(owed := c.owed + [cmd]) else c.(err := true);
  }

  method GetReply(c: Conn) returns (d: Conn, reply: Option<Reply>)
    requires !c.err && c.owed != []
    ensures reply.Some? == !d.err
    ensures reply.None? ==> d == c.(err := true)
    ensures reply.Some? ==> Sent(d) == Sent(c) && d.replies == c.replies + [reply.value] && |d.owed| == |c.owed| - 1
    ensures reply.Some? && (!reply.value.to.Keys? || reply.value.error) ==> reply.value.listed == []
  {
    d, reply := c.(err := true), None;
    if * {
      var error: bool := *;
      var listed: seq<nat> := *;
      var r := Reply(c.owed[0], error, if c.owed[0].Keys? && !error then listed else []);
      d, reply := Conn(c.replies + [r], c.owed[1..], false), Some(r);
      assert Sent(d) == Sent(c) by { assert c.owed == [c.owed[0]] + c.owed[1..]; }
    }
  }

  /** redisvCommand: append, then take one reply - the oldest one owed, whatever it answers. */
  method RunCommand(c: Conn, cmd: Command) returns (d: Conn, reply: Option<Reply>)
    requires !c.err
    ensures reply.Some? == !d.err
    ensures reply.None? ==> d.replies == c.replies && (Sent(d) == Sent(c) || Sent(d) == Sent(c) + [cmd])
    ensures reply.Some? ==> Sent(d) == Sent(c) + [cmd] && d.replies == c.replies + [reply.value]
    ensures reply.Some? ==> |d.owed| == |c.owed| && reply.value.to == Head(c, cmd)
    ensures reply.Some? && (!reply.value.to.Keys? || reply.value.error) ==> reply.value.listed == []
  {
    var ok: bool;
    d, ok := AppendCommand(c, cmd);
    reply := None;
    if ok {
      assert Sent(d) == Sent(c) + [cmd];
      var e := d;
      d, reply := GetReply(e);
      if reply.Some? {
        assert Sent(d)[|c.replies|] == reply.value.to && Sent(e)[|c.replies|] == e.owed[0];
      }
    }
  }

  /** Nothing but authentication and the choice of the database. */
  predicate LoginOnly(cmds: seq<Command>) {
    forall i | 0 <= i < |cmds| :: cmds[i].Auth? || cmds[i].Select?
  }

  /** After those in `before`, the connection `last`, if any, was given up, and then only some that took nothing but
      their login. */
  ghost predicate GivenUp(before: seq<Conn>, last: Option<Conn>, after: seq<Conn>) {
    var n := |before| + if last.Some? then 1 else 0;
    |after| >= n && before <= after && (last.Some? ==> after[|before|] == last.value) &&
    forall i | n <= i < |after| :: LoginOnly(Sent(after[i]))
  }

  lemma GivesUpMore(before: seq<Conn>, last: Option<Conn>, between: seq<Conn>, after: seq<Conn>)
    requires GivenUp(before, last, between) && GivenUp(between, None, after)
    ensures GivenUp(before, last, after)
  {
    hide LoginOnly, Sent;
    assert forall i | 0 <= i < |between| :: after[i] == between[i];
  }

  /** A connection, and those that it replaced. */
  datatype View = View(ctx: Option<Conn>, past: seq<Conn>)

  /** The connection is new, with nothing but the login behind it, or there is none. */
  ghost predicate New(d: Option<Conn>) {
    var select := [Reply(Select, false, [])];
    var login := [Reply(Auth, false, [])] + select;
    d.Some? ==> d.value.owed == [] && (d.value.replies == select || d.value.replies == login)
  }

  /** A call failed: the connection that it used is given up, having taken the first of these commands at most, and
      the one behind it is new. */
  ghost predicate Failed(c: View, d: View, cmds: seq<Command>) {
    New(d.ctx) && (c.ctx.Some? ==> |d.past| > |c.past| && TookFirst(c.ctx.value, d.past[|c.past|], cmds)) &&
    GivenUp(c.past, if c.ctx.Some? then Some(d.past[|c.past|]) else None, d.past)
  }

  ghost predicate TookFirst(c: Conn, g: Conn, cmds: seq<Command>) {
    c.replies <= g.replies && Sent(g) <= Sent(c) + cmds
  }

  /** The names are what the reply to the first command lists and does not spare, on the connection given up. */
  ghost predicate ListedThere(c: View, d: View, names: seq<nat>, spared: set<nat>) {
    names == [] ||
    (c.ctx.Some? && |d.past| > |c.past| && |d.past[|c.past|].replies| > |c.ctx.value.replies| &&
    Left(names, d.past[|c.past|].replies[|c.ctx.value.replies|].listed, spared))
  }

  // ------------------------------------------------------------------------------------------------
  // One connection
  // ------------------------------------------------------------------------------------------------

  class RedisCtx {
    var ctx: Option<Conn>
    var status: Status
    var appCnt: nat
    const passworded: bool
    /** The connections that were given up, as they stood then. */
    ghost var past: seq<Conn>

    /** The replies that a connection ready for use has seen: it is authorised and the database chosen. */
    function Login(): seq<Reply> {
      (if passworded then [Reply(Auth, false, [])] else []) + [Reply(Select, false, [])]
    }

    ghost predicate Usable(c: Conn) {
      !c.err && Login() <= c.replies
    }

    /** Between calls: the replies owed on a live connection are counted exactly. */
    ghost predicate Aligned()
      reads this
    {
      appCnt < MAX_COMMIT_CNT &&
      (ctx.None? ==> appCnt == 0) &&
      (ctx.Some? ==> status == Ok && Usable(ctx.value) && |ctx.value.owed| == appCnt)
    }

    /** Nothing but the login has gone over the connection, if there is one. */
    ghost predicate Renewed()
      reads this
    {
      appCnt == 0 && (ctx.Some? ==> ctx.value.owed == [] && ctx.value.replies == Login())
    }

    ghost function Owed(): seq<Command>
      reads this
    {
      if ctx.Some? then ctx.value.owed else []
    }

    ghost function Now(): View
      reads this
    {
      View(ctx, past)
    }

    /** The commands taken by the current connection, the login included. */
    ghost function Taken(): seq<Command>
      reads this
    {
      if ctx.Some? then Sent(ctx.value) else []
    }

    constructor (passworded: bool)
      ensures Aligned() && ctx == None && this.passworded == passworded && past == []
    {
      this.passworded := passworded;
      ctx, status, appCnt, past := None, Ok, 0, [];
    }

    method ChkValid() returns (ok: bool)
      ensures ok == (ctx.Some? && status == Ok)
    {
      ok := ctx.Some? && status == Ok;
    }

    method Close()
      modifies this
      ensures ctx == None && status == Closed && appCnt == 0
      ensures past == old(past) + if old(ctx).Some? then [old(ctx.value)] else []
    {
      past := past + if ctx.Some? then [ctx.value] else [];
      ctx, status, appCnt := None, Closed, 0;
    }

    /** _RedisHeader.cpp, lines 545-573: false without a reply, and for a reply that is an error. */
    method Execute(cmd: Command) returns (ok: bool)
      requires ctx.Some? && !ctx.value.err && !cmd.Keys?
      modifies this`ctx
      ensures ctx.Some?
      ensures ok ==> !ctx.value.err
      ensures ctx.value.err ==>
        Sent(ctx.value) == old(Sent(ctx.value)) || Sent(ctx.value) == old(Sent(ctx.value)) + [cmd]
      ensures !ctx.value.err ==> Sent(ctx.value) == old(Sent(ctx.value)) + [cmd]
      ensures !ctx.value.err ==> |ctx.value.owed| == |old(ctx.value.owed)|
      ensures !ctx.value.err ==> |ctx.value.replies| == |old(ctx.value.replies)| + 1
      ensures old(ctx.value.replies) <= ctx.value.replies
      ensures !ctx.value.err ==> var r := ctx.value.replies[|old(ctx.value.replies)|];
        r.to == old(Head(ctx.value, cmd)) && ok == !r.error && (r.to.Keys? || r.listed == [])
    {
      var c, reply := RunCommand(ctx.value, cmd);
      ctx := Some(c);
      ok := reply.Some? && !reply.value.error;
    }

    /** _RedisHeader.cpp, lines 103-121 */
    method AuthDb() returns (ok: bool)
      requires ctx.Some? && !ctx.value.err && Sent(ctx.value) == [] && status == Ok && appCnt == 0
      modifies this
      ensures ok ==> status == Ok && appCnt == 0 && ctx.Some? && !ctx.value.err && ctx.value.owed == []
      ensures ok ==> ctx.value.replies == if passworded then [Reply(Auth, false, [])] else []
      ensures !ok ==> ctx == None && appCnt == 0
      ensures if ok then past == old(past) else GivenUp(old(past), None, past)
    {
      ok := true;
      if passworded {
        ok := Execute(Auth);
        if ok {
          status := Ok;
        } else {
          Close();
        }
      }
    }

    /** _RedisHeader.cpp, lines 88-101 */
    method SelectDb() returns (ok: bool)
      requires ctx.Some? && !ctx.value.err && ctx.value.owed == [] && appCnt == 0
      modifies this
      ensures appCnt == 0
      ensures ok ==> status == Ok && ctx.Some? && !ctx.value.err && ctx.value.owed == []
      ensures ok ==> ctx.value.replies == old(ctx.value.replies) + [Reply(Select, false, [])]
      ensures !ok ==> ctx == None
      ensures old(LoginOnly(Sent(ctx.value))) ==> if ok then past == old(past) else GivenUp(old(past), None, past)
    {
      ok := Execute(Select);
      if ok {
        status := Ok;
      } else {
        Close();
      }
    }

    /** _RedisHeader.cpp, lines 53-86. A live context would be leaked here, so there must be none. */
    method Conn() returns (ok: bool)
      requires ctx == None && appCnt == 0
      modifies this
      ensures Aligned() && Renewed() && ok == ctx.Some?
      ensures GivenUp(old(past), None, past)
    {
      ctx := Connect();
      if ctx.None? {
        Close();
        return false;
      }
      if ctx.value.err {
        Close();
        return false;
      }
      status := Ok;
      ok := AuthDb();
      if ok {
        ok := SelectDb();
      }
    }

    /** _RedisHeader.cpp, lines 42-45 */
    method Reconn() returns (ok: bool)
      modifies this
      ensures Aligned() && Renewed() && New(ctx) && ok == ctx.Some?
      ensures GivenUp(old(past), old(ctx), past)
    {
      hide LoginOnly, Answered;
      Close();
      ghost var between := past;
      ok := Conn();
      GivesUpMore(old(past), old(ctx), between, past);
    }

    /** _RedisHeader.cpp, lines 123-144. The reply is the caller's own exactly when nothing was appended and not yet
        committed. */
    method Operation(id: nat) returns (reply: Option<Reply>)
      requires Aligned()
      modifies this
      ensures Aligned()
      ensures reply.None? ==> Renewed() && Failed(old(Now()), Now(), [Request(id)])
      ensures reply.Some? ==> past == old(past)
      ensures reply.Some? ==> old(ctx.Some?) && ctx.Some? && Taken() == old(Taken()) + [Request(id)]
      ensures reply.Some? ==> appCnt == old(appCnt) && ctx.value.replies == old(ctx.value.replies) + [reply.value]
      ensures reply.Some? && Request(id) !in old(Owed()) ==> (reply.value.to == Request(id) <==> old(appCnt) == 0)
      ensures reply.Some? && old(appCnt) > 0 ==> reply.value.to == old(Owed())[0]
    {
      reply := None;
      var ok := ChkValid();
      if ok {
        var c;
        c, reply := RunCommand(ctx.value, Request(id));
        ctx := Some(c);
      }
      if reply.None? {
        var _ := Reconn();
      }
    }

    /** _RedisHeader.cpp, lines 348-371 */
    method QueryDebug(id: nat) returns (ok: bool)
      requires Aligned()
      modifies this
      ensures Aligned()
      ensures !ok ==> Renewed() && Failed(old(Now()), Now(), [Request(id)])
      ensures ok ==> past == old(past)
      ensures ok ==> old(ctx.Some?) && ctx.Some? && appCnt == old(appCnt) && Taken() == old(Taken()) + [Request(id)]
      ensures ok && old(appCnt) == 0 ==> ctx.value.replies == old(ctx.value.replies) + [Reply(Request(id), false, [])]
    {
      ok := ChkValid();
      if ok {
        ok := Execute(Request(id));
      }
      if !ok {
        var _ := Reconn();
      }
    }

    /** _RedisHeader.cpp, lines 237-294: the names that Redis lists for the pattern, but for those that are spared. */
    method GetPatternKeys(pattern: nat, spared: set<nat>) returns (ok: bool, vec: seq<nat>)
      requires ctx.Some? && Usable(ctx.value)
      modifies this`ctx
      ensures ctx.Some?
      ensures ok ==> Usable(ctx.value) && Taken() == old(Taken()) + [Keys(pattern)] && |Owed()| == |old(Owed())|
      ensures !ok ==> ctx.value.replies == old(ctx.value.replies)
      ensures !ok ==> Taken() == old(Taken()) || Taken() == old(Taken()) + [Keys(pattern)]
      ensures ok ==> |ctx.value.replies| == |old(ctx.value.replies)| + 1 && old(ctx.value.replies) <= ctx.value.replies
      ensures ok ==> var r := ctx.value.replies[|old(ctx.value.replies)|];
        r.to == old(Head(ctx.value, Keys(pattern))) && Left(vec, r.listed, spared)
    {
      vec := [];
      var c, reply := RunCommand(ctx.value, Keys(pattern));
      ctx := Some(c);
      ok := reply.Some?;
      if ok {
        hide Left;
        var listed := reply.value.listed;
        NothingLeft(spared);
        for i := 0 to |listed|
          modifies {}
          invariant Left(vec, listed[..i], spared)
        {
          assert listed[..i + 1] == listed[..i] + [listed[i]];
          LeftMore(vec, listed[..i], listed[i], spared);
          if listed[i] !in spared {
            vec := vec + [listed[i]];
          }
        }
        assert listed[..|listed|] == listed;
      }
    }

    /** _RedisHeader.cpp, lines 296-321 */
    method DelKeys(vec: seq<nat>) returns (ok: bool)
      requires ctx.Some? && Usable(ctx.value)
      modifies this`ctx
      ensures ctx.Some?
      ensures ok ==> Usable(ctx.value) && Taken() == old(Taken()) + Dels(vec) && |Owed()| == |old(Owed())|
      ensures old(ctx.value.replies) <= ctx.value.replies && Taken() <= old(Taken()) + Dels(vec)
    {
      hide Dels, Sent, Answered, Head;
      ok := true;
      NoDels(vec);
      assert Taken() + [] == Taken();
      for i := 0 to |vec|
        invariant ctx.Some? && ok && Usable(ctx.value) && |Owed()| == |old(Owed())|
        invariant Taken() == old(Taken()) + Dels(vec[..i]) && old(ctx.value.replies) <= ctx.value.replies
      {
        var c, reply := RunCommand(ctx.value, Del(vec[i]));
        ctx := Some(c);
        OneDelMore(vec, i);
        FirstDels(vec, i);
        FirstDels(vec, i + 1);
        ConcatAssociates(old(Taken()), Dels(vec[..i]), [Del(vec[i])]);
        if reply.None? {
          return false;
        }
      }
      assert vec[..|vec|] == vec;
    }

    /** _RedisHeader.cpp, lines 185-235: on a connection that owes nothing, what is deleted is exactly what Redis
        listed in answer to this very pattern, but for the spared names, or the first of it when the call fails. */
    method DelPatternKeys(pattern: nat, spared: set<nat>) returns (ok: bool, ghost names: seq<nat>)
      requires Aligned()
      modifies this
      ensures Aligned()
      ensures !ok ==> Renewed()
      ensures ok ==> old(ctx.Some?) && ctx.Some? && appCnt == old(appCnt) && past == old(past)
      ensures ok ==> Taken() == old(Taken()) + [Keys(pattern)] + Dels(names)
      ensures ok ==> |ctx.value.replies| > |old(ctx.value.replies)| && old(ctx.value.replies) <= ctx.value.replies
      ensures ok ==> var r := ctx.value.replies[|old(ctx.value.replies)|];
        Left(names, r.listed, spared) && (old(appCnt) == 0 ==> r.to == Keys(pattern))
      ensures !ok ==> Failed(old(Now()), Now(), [Keys(pattern)] + Dels(names))
      ensures !ok ==> ListedThere(old(Now()), Now(), names, spared)
    {
      hide Answered, Dels, Left, LoginOnly;
      names := [];
      ok := ChkValid();
      if ok {
        var vec;
        ok, vec := GetPatternKeys(pattern, spared);
        if ok {
          names := vec;
          ok := DelKeys(vec);
          ConcatAssociates(old(Taken()), [Keys(pattern)], Dels(names));
        }
      }
      if !ok {
        var _ := Reconn();
      }
    }

    /** _RedisHeader.cpp, lines 468-528: takes every reply that is owed, or fails on the way. */
    method GetReplies() returns (ok: bool)
      requires ctx.Some? && Usable(ctx.value) && |ctx.value.owed| == appCnt
      modifies this
      ensures status == old(status) && past == old(past) && appCnt == 0 && ctx.Some?
      ensures old(ctx.value.replies) <= ctx.value.replies && Taken() == old(Taken())
      ensures ok ==> Usable(ctx.value) && ctx.value.owed == []
    {
      ok := true;
      if 0 < appCnt {
        var cnt := 0;
        while cnt < appCnt
          invariant cnt <= appCnt == old(appCnt) && status == old(status) && past == old(past) && ctx.Some?
          invariant old(ctx.value.replies) <= ctx.value.replies
          invariant Usable(ctx.value) && |ctx.value.owed| == appCnt - cnt && Taken() == old(Taken())
        {
          var c, reply := GetReply(ctx.value);
          ctx := Some(c);
          if reply.None? {
            ok := false;
            break;
          }
          cnt := cnt + 1;
        }
        appCnt := 0;
      }
    }

    /** _RedisHeader.cpp, lines 406-442 */
    method AppendV(id: nat) returns (ok: bool)
      requires Aligned() && ctx.Some?
      modifies this
      ensures past == old(past) && ctx.Some? && old(ctx.value.replies) <= ctx.value.replies
      ensures Taken() <= old(Taken()) + [Request(id)]
      ensures ok ==> Aligned() && Taken() == old(Taken()) + [Request(id)]
      ensures ok ==> appCnt == (old(appCnt) + 1) % MAX_COMMIT_CNT
    {
      var c;
      c, ok := AppendCommand(ctx.value, Request(id));
      ctx := Some(c);
      if ok {
        appCnt := appCnt + 1;
        assert Taken() == old(Taken()) + [Request(id)];
        if MAX_COMMIT_CNT <= appCnt {
          ok := GetReplies();
        }
      }
    }

    /** _RedisHeader.cpp, lines 323-346: an accepted command is the next one on the connection, and every 5000th append
        collects all the replies. */
    method AppendCmd(id: nat) returns (ok: bool)
      requires Aligned()
      modifies this
      ensures Aligned()
      ensures !ok ==> Renewed() && Failed(old(Now()), Now(), [Request(id)])
      ensures ok ==> past == old(past)
      ensures ok ==> old(ctx.Some?) && ctx.Some? && Taken() == old(Taken()) + [Request(id)]
      ensures ok ==> old(ctx.value.replies) <= ctx.value.replies && appCnt == (old(appCnt) + 1) % MAX_COMMIT_CNT
    {
      hide Answered, LoginOnly;
      ok := ChkValid();
      if ok {
        ok := AppendV(id);
        assert TookFirst(old(ctx.value), ctx.value, [Request(id)]);
      }
      if !ok {
        var _ := Reconn();
      }
    }

    /** _RedisHeader.cpp, lines 444-466 */
    method Commit() returns (ok: bool)
      requires Aligned()
      modifies this
      ensures Aligned() && appCnt == 0 && Owed() == []
      ensures !ok ==> Renewed() && Failed(old(Now()), Now(), [])
      ensures ok ==> past == old(past)
      ensures ok ==> old(ctx.Some?) && ctx.Some? && Answered(ctx.value.replies) == Taken() == old(Taken())
      ensures ok ==> old(ctx.value.replies) <= ctx.value.replies
    {
      ok := ChkValid();
      if ok {
        ok := GetReplies();
        if ok {
          assert Sent(ctx.value) == Answered(ctx.value.replies);
        }
      }
      if !ok {
        var _ := Reconn();
      }
    }
  }

  /** Why the two kinds of call must not share a connection: after an append that was not committed, a
      synchronous call that succeeds is handed the reply of the appended command. */
  method MixedUse(c: RedisCtx, appended: nat, asked: nat) returns (reply: Option<Reply>)
    requires c.Aligned() && c.appCnt == 0
    modifies c
    ensures reply.Some? && c.appCnt == 1 ==> reply.value.to == Request(appended)
  {
    var ok := c.AppendCmd(appended);
    if ok {
      LastTaken(c.ctx.value);
    }
    reply := c.Operation(asked);
  }

  lemma LastTaken(c: Conn)
    ensures |c.owed| == 1 ==> |Sent(c)| > 0 && Sent(c)[|Sent(c)| - 1] == c.owed[0]
  {
  }

  // ------------------------------------------------------------------------------------------------
  // Many connections on a hash ring
  // ------------------------------------------------------------------------------------------------

  datatype Call =
    | Operation(key: seq<byte>, id: nat)
    | QueryDebug(key: seq<byte>, id: nat)
    | DelPatternKeys(pattern: nat, spared: set<nat>, legal: bool)
    | AppendCmd(key: seq<byte>, id: nat)
    | Commit(key: seq<byte>)
    | CommitAll

  ghost predicate Distinct(vec: seq<RedisCtx>) {
    forall i, j | 0 <= i < j < |vec| :: vec[i] != vec[j]
  }

  /** The same connection has taken these commands and been answered each of them, in order. */
  ghost predicate Exchange(c: Option<Conn>, d: Option<Conn>, cmds: seq<Command>) {
    c.Some? && d.Some? && c.value.owed == [] && d.value.owed == [] && c.value.replies <= d.value.replies &&
    Answered(d.value.replies[|c.value.replies|..]) == cmds
  }

  lemma Exchanged(c: Conn, d: Conn, cmds: seq<Command>)
    requires c.owed == [] && d.owed == [] && c.replies <= d.replies && Sent(d) == Sent(c) + cmds
    ensures Exchange(Some(c), Some(d), cmds)
  {
    assert Sent(c) == Answered(c.replies) && Sent(d) == Answered(d.replies);
    assert Answered(d.replies) == Answered(c.replies) + Answered(d.replies[|c.replies|..]);
    assert Sent(d)[|Sent(c)|..] == cmds;
  }

  /** The one command was answered with this very reply. */
  ghost predicate OwnReply(c: Option<Conn>, d: Option<Conn>, id: nat, reply: Reply) {
    Exchange(c, d, [Request(id)]) && d.value.replies == c.value.replies + [reply]
  }

  /** The first reply answers this very KEYS, and then exactly the names that it lists and that are not spared were
      deleted. */
  ghost predicate OwnDeletion(c: Option<Conn>, d: Option<Conn>, pattern: nat, spared: set<nat>) {
    c.Some? && d.Some? && |c.value.replies| < |d.value.replies| &&
    exists names: seq<nat> :: Left(names, d.value.replies[|c.value.replies|].listed, spared) &&
      Exchange(c, d, [Keys(pattern)] + Dels(names))
  }

  /** The call failed: of its deletions only the first ones were sent, if any. */
  ghost predicate Abandoned(c: View, d: View, pattern: nat, spared: set<nat>) {
    exists names: seq<nat> :: ListedThere(c, d, names, spared) && Failed(c, d, [Keys(pattern)] + Dels(names))
  }

  ghost predicate Deletes(c: View, d: View, pattern: nat, spared: set<nat>) {
    Abandoned(c, d, pattern, spared) || (OwnDeletion(c.ctx, d.ctx, pattern, spared) && d.past == c.past)
  }

  /** What a call does to one connection of the side that serves synchronous calls. `home` tells whether the key of
      the call belongs to it. */
  ghost predicate Effect(call: Call, home: bool, c: View, d: View, reply: Option<Reply>) {
    match call
    case Operation(_, id) =>
      if !home then d == c
      else if reply.Some? then OwnReply(c.ctx, d.ctx, id, reply.value) && d.past == c.past
      else Failed(c, d, [Request(id)])
    case QueryDebug(_, id) =>
      if !home then d == c else Failed(c, d, [Request(id)]) || Queried(c, d, id)
    case DelPatternKeys(pattern, spared, legal) =>
      if !legal then d == c
      else Deletes(c, d, pattern, spared)
    case _ => d == c
  }

  ghost predicate Queried(c: View, d: View, id: nat) {
    OwnReply(c.ctx, d.ctx, id, Reply(Request(id), false, [])) && d.past == c.past
  }

  /** The command is the next one that the connection took; every 5000th collects all replies. */
  ghost predicate Appended(c: View, d: View, id: nat) {
    c.ctx.Some? && d.ctx.Some? && d.past == c.past && c.ctx.value.replies <= d.ctx.value.replies &&
    Sent(d.ctx.value) == Sent(c.ctx.value) + [Request(id)] &&
    |d.ctx.value.owed| == (|c.ctx.value.owed| + 1) % MAX_COMMIT_CNT
  }

  /** Every command taken has its reply, unless the connection broke. */
  ghost predicate Committed(c: View, d: View) {
    Failed(c, d, []) ||
    (c.ctx.Some? && d.ctx.Some? && d.past == c.past && c.ctx.value.replies <= d.ctx.value.replies &&
    d.ctx.value.owed == [] && Answered(d.ctx.value.replies) == Sent(c.ctx.value))
  }

  /** What a call does to one connection of the side that serves appended commands; `ok` is the answer of an
      append. */
  ghost predicate WriteEffect(call: Call, home: bool, c: View, d: View, ok: bool) {
    match call
    case AppendCmd(_, id) =>
      if !home then d == c else if ok then Appended(c, d, id) else Failed(c, d, [Request(id)])
    case Commit(_) => if home then Committed(c, d) else d == c
    case CommitAll => Committed(c, d)
    case _ => d == c
  }

  class DbBase {
    const ring: HashNodes<RedisCtx>
    var vec: seq<RedisCtx>

    ghost predicate Valid()
      reads this, ring, vec
    {
      ring.Valid() && (forall k :: k in ring.m ==> ring.m[k] in vec) && (forall r :: r in vec ==> r.Aligned()) &&
      Distinct(vec)
    }

    /** No connection owes a reply. */
    ghost predicate Quiet()
      reads this, vec
    {
      forall r :: r in vec ==> r.appCnt == 0
    }

    /** The connection that a key belongs to. */
    ghost function Home(key: seq<byte>): RedisCtx
      requires ring.Valid() && ring.m.Keys != {}
      reads this, ring
    {
      Lookup(ring.m, Hash32(key))
    }

    /** A look at all connections. */
    ghost function Conns(): (r: seq<View>)
      reads this, vec
      ensures |r| == |vec| && forall i :: 0 <= i < |vec| ==> r[i] == vec[i].Now()
    {
      seq(|vec|, i requires 0 <= i < |vec| reads this, vec => vec[i].Now())
    }

    /** The key of the call, if it has one, belongs to r. */
    ghost predicate IsHome(call: Call, r: RedisCtx)
      reads this, ring
    {
      (call.Operation? || call.QueryDebug? || call.AppendCmd? || call.Commit?) &&
      ring.Valid() && ring.m.Keys != {} && r == Home(call.key)
    }

    /** What a call does to all of them. */
    ghost predicate Effects(call: Call, before: seq<View>, after: seq<View>, reply: Option<Reply>)
      reads this, ring
    {
      |before| == |after| == |vec| &&
      (forall i :: 0 <= i < |vec| ==> Effect(call, IsHome(call, vec[i]), before[i], after[i], reply)) &&
      (reply.Some? ==> call.Operation? && reply.value.to == Request(call.id))
    }

    ghost predicate WriteEffects(call: Call, before: seq<View>, after: seq<View>, ok: bool)
      reads this, ring
    {
      |before| == |after| == |vec| &&
      forall i :: 0 <= i < |vec| ==> WriteEffect(call, IsHome(call, vec[i]), before[i], after[i], ok)
    }

    /** Where no connection has changed, nothing has. */
    twostate lemma Untouched()
      requires old(Valid()) && unchanged(this) && unchanged(ring) && forall r :: r in vec ==> unchanged(r)
      ensures Valid() && (old(Quiet()) ==> Quiet()) && Conns() == old(Conns())
    {
      hide RedisCtx.Aligned, Distinct;
      forall i | 0 <= i < |vec| ensures unchanged(vec[i]) {
        assert vec[i] in vec;
      }
    }

    lemma NoEffect(call: Call, now: seq<View>)
      requires |now| == |vec|
      ensures !call.Operation? && !call.QueryDebug? && !call.DelPatternKeys? ==> Effects(call, now, now, None)
      ensures !call.AppendCmd? && !call.Commit? && !call.CommitAll? ==> WriteEffects(call, now, now, true)
    {
    }

    constructor ()
      ensures Valid() && Quiet() && vec == [] && fresh(ring) && ring.m == map[]
    {
      ring := new HashNodes<RedisCtx>();
      vec := [];
    }

    /** DbBase.cpp lines 56-78, with the ring keys of the host's virtual nodes. */
    method Add(names: seq<seq<byte>>, passworded: bool) returns (ok: bool)
      requires Valid()
      modifies this, ring
      ensures Valid() && |vec| == |old(vec)| + 1 && vec[..|old(vec)|] == old(vec) && fresh(vec[|old(vec)|])
      ensures old(Quiet()) ==> Quiet()
      ensures forall k :: k in old(ring.m) ==> k in ring.m && ring.m[k] == old(ring.m[k])
      ensures forall i :: 0 <= i < |names| ==> Hash32(names[i]) in ring.m
      ensures forall i :: 0 <= i < |names| && Hash32(names[i]) !in old(ring.m) ==>
        ring.m[Hash32(names[i])] == vec[|old(vec)|]
      ensures old(ring.m.Keys) != {} ==> OnlyTo(old(ring.m), ring.m, vec[|old(vec)|])
      ensures ok == vec[|old(vec)|].ctx.Some?
    {
      hide Hash32, Points, Lookup, Answered;
      var redis := new RedisCtx(passworded);
      vec := vec + [redis];
      PutNames(names, redis);
      ok := redis.Reconn();
    }

    method PutNames(names: seq<seq<byte>>, redis: RedisCtx)
      requires ring.Valid()
      modifies ring
      ensures ring.Valid()
      ensures forall k :: k in old(ring.m) ==> k in ring.m && ring.m[k] == old(ring.m[k])
      ensures forall k :: k in ring.m && k !in old(ring.m) ==> ring.m[k] == redis
      ensures old(ring.m.Keys) != {} ==> OnlyTo(old(ring.m), ring.m, redis)
      ensures forall i :: 0 <= i < |names| ==> Hash32(names[i]) in ring.m
    {
      hide Hash32, Points;
      for j := 0 to |names|
        invariant ring.Valid()
        invariant forall k :: k in old(ring.m) ==> k in ring.m && ring.m[k] == old(ring.m[k])
        invariant forall k :: k in ring.m && k !in old(ring.m) ==> ring.m[k] == redis
        invariant old(ring.m.Keys) != {} ==> OnlyTo(old(ring.m), ring.m, redis)
        invariant forall i :: 0 <= i < j ==> Hash32(names[i]) in ring.m
      {
        ghost var before := ring.m;
        ring.PutNode(names[j], redis);
        PutOnlyTo(old(ring.m), before, Hash32(names[j]), redis);
      }
    }

    /** DbBase.cpp lines 244-263. `conf` holds the servers of the configuration, if it can be read: for each the
        names of its virtual nodes. */
    method Init(conf: Option<seq<seq<seq<byte>>>>, passworded: bool) returns (ok: bool)
      requires Valid() && (conf.Some? ==> forall names :: names in conf.value ==> names != [])
      modifies this, ring
      ensures Valid() && (old(Quiet()) ==> Quiet())
      ensures old(vec) <= vec && forall r :: r in vec ==> r in old(vec) || fresh(r)
      ensures ok ==> ring.m.Keys != {} && conf.Some? && |vec| == |old(vec)| + |conf.value|
      ensures ok ==> forall i :: |old(vec)| <= i < |vec| ==> vec[i].ctx.Some?
    {
      hide Hash32, Points, Lookup, Answered;
      hide Distinct, OnlyTo, RedisCtx.Aligned;
      ok := false;
      if conf.Some? {
        for i := 0 to |conf.value|
          invariant Valid() && (old(Quiet()) ==> Quiet())
          invariant old(vec) <= vec && |vec| == |old(vec)| + i && forall r :: r in vec ==> r in old(vec) || fresh(r)
          invariant i > 0 ==> ring.m.Keys != {}
          invariant i > 0 <==> ok
          invariant forall j :: |old(vec)| <= j < |vec| ==> vec[j].ctx.Some?
        {
          assert conf.value[i] in conf.value;
          ghost var before := vec;
          ok := Add(conf.value[i], passworded);
          assert vec == before + [vec[|before|]];
          assert Hash32(conf.value[i][0]) in ring.m.Keys;
          if !ok {
            break;
          }
        }
      }
    }

    method GetNode(key: seq<byte>) returns (redis: RedisCtx)
      requires Valid() && ring.m.Keys != {}
      ensures redis == Home(key) && redis in vec
    {
      redis := ring.GetNode(key);
    }

    method Operation(key: seq<byte>, id: nat) returns (reply: Option<Reply>)
      requires Valid() && ring.m.Keys != {}
      modifies vec
      ensures Valid()
      ensures forall r :: r in vec && r != Home(key) ==> unchanged(r)
      ensures old(Quiet()) ==> Quiet() && Effects(Call.Operation(key, id), old(Conns()), Conns(), reply)
    {
      hide Hash32, Points, Lookup, Distinct, Answered, Failed, Deletes;
      var redis := GetNode(key);
      ghost var before := redis.ctx;
      reply := redis.Operation(id);
      if old(Quiet()) && reply.Some? {
        Exchanged(before.value, redis.ctx.value, [Request(id)]);
      }
    }

    method QueryDebug(key: seq<byte>, id: nat)
      requires Valid() && ring.m.Keys != {}
      modifies vec
      ensures Valid()
      ensures forall r :: r in vec && r != Home(key) ==> unchanged(r)
      ensures old(Quiet()) ==> Quiet() && Effects(Call.QueryDebug(key, id), old(Conns()), Conns(), None)
    {
      hide Hash32, Points, Lookup, Distinct, Answered, Failed, Deletes;
      var redis := GetNode(key);
      ghost var before := redis.ctx;
      var ok := redis.QueryDebug(id);
      if old(Quiet()) && ok {
        Exchanged(before.value, redis.ctx.value, [Request(id)]);
      }
    }

    /** DbBase.cpp lines 133-173; `legal` is what chkPattern finds. */
    method DelPatternKeys(pattern: nat, spared: set<nat>, legal: bool)
      requires Valid()
      modifies vec
      ensures Valid()
      ensures !legal ==> forall r :: r in vec ==> unchanged(r)
      ensures old(Quiet()) ==>
        Quiet() && Effects(Call.DelPatternKeys(pattern, spared, legal), old(Conns()), Conns(), None)
    {
      hide Hash32, Points, Lookup, Answered, Dels, Left, Failed, ListedThere, Exchange;
      if legal {
        for i := 0 to |vec|
          invariant Valid() && (old(Quiet()) ==> Quiet())
          invariant forall j :: i <= j < |vec| ==> unchanged(vec[j])
          invariant old(Quiet()) ==> forall j :: 0 <= j < i ==>
            Deletes(old(Conns())[j], vec[j].Now(), pattern, spared)
        {
          ghost var before := vec[i].Now();
          assert before == old(Conns())[i];
          ghost var names;
          var ok;
          ok, names := vec[i].DelPatternKeys(pattern, spared);
          ghost var after := vec[i].Now();
          if old(Quiet()) && ok {
            ConcatAssociates(Sent(before.ctx.value), [Keys(pattern)], Dels(names));
            Exchanged(before.ctx.value, after.ctx.value, [Keys(pattern)] + Dels(names));
            assert OwnDeletion(before.ctx, after.ctx, pattern, spared);
          } else if old(Quiet()) {
            assert Abandoned(before, after, pattern, spared);
          }
        }
      }
    }

    method AppendCmd(key: seq<byte>, id: nat) returns (ok: bool)
      requires Valid() && ring.m.Keys != {}
      modifies vec
      ensures Valid()
      ensures forall r :: r in vec && r != Home(key) ==> unchanged(r)
      ensures WriteEffects(Call.AppendCmd(key, id), old(Conns()), Conns(), ok)
    {
      hide Hash32, Points, Lookup, Distinct, Answered, Failed, Sent, New;
      var redis := GetNode(key);
      ok := redis.AppendCmd(id);
    }

    method Commit(key: seq<byte>)
      requires Valid() && ring.m.Keys != {}
      modifies vec
      ensures Valid()
      ensures forall r :: r in vec && r != Home(key) ==> unchanged(r)
      ensures Home(key).Owed() == []
      ensures WriteEffects(Call.Commit(key), old(Conns()), Conns(), true)
    {
      hide Hash32, Points, Lookup, Distinct, Answered, Failed;
      var redis := GetNode(key);
      var _ := redis.Commit();
    }

    /** DbBase.cpp lines 208-220 */
    method CommitAll()
      requires Valid()
      modifies vec
      ensures Valid() && Quiet()
      ensures forall r :: r in vec ==> r.Owed() == []
      ensures WriteEffects(Call.CommitAll, old(Conns()), Conns(), true)
    {
      hide Hash32, Points, Lookup, Answered, Failed;
      for i := 0 to |vec|
        invariant Valid()
        invariant forall j :: i <= j < |vec| ==> unchanged(vec[j])
        invariant forall j :: 0 <= j < i ==> vec[j].appCnt == 0 && vec[j].Owed() == []
        invariant forall j :: 0 <= j < i ==> Committed(old(Conns())[j], vec[j].Now())
      {
        ghost var before := vec[i].Now();
        assert before == old(Conns())[i];
        var _ := vec[i].Commit();
        assert Committed(before, vec[i].Now());
      }
    }
  }

  /** Every hash keeps its connection or goes to the new one. */
  ghost predicate OnlyTo(before: map<nat, RedisCtx>, after: map<nat, RedisCtx>, redis: RedisCtx)
    requires Points(before.Keys) && before.Keys != {} && Points(after.Keys) && after.Keys != {}
  {
    forall h: nat :: h < UINT32 ==> Lookup(after, h) == Lookup(before, h) || Lookup(after, h) == redis
  }

  lemma PutOnlyTo(first: map<nat, RedisCtx>, m: map<nat, RedisCtx>, l: nat, redis: RedisCtx)
    requires Points(first.Keys) && Points(m.Keys) && l < UINT32
    requires first.Keys != {} ==> m.Keys != {} && OnlyTo(first, m, redis)
    ensures Points(Put(m, l, redis).Keys) && Put(m, l, redis).Keys != {}
    ensures first.Keys != {} ==> OnlyTo(first, Put(m, l, redis), redis)
  {
    hide Lookup, Dist;
    assert l in Put(m, l, redis);
    if first.Keys != {} {
      forall h: nat | h < UINT32
        ensures Points(Put(m, l, redis).Keys)
        ensures Lookup(Put(m, l, redis), h) == Lookup(m, h) || Lookup(Put(m, l, redis), h) == redis
      {
        PutRedirectsOneArc(m, l, redis, h);
      }
    }
  }

  // ------------------------------------------------------------------------------------------------
  // The pool
  // ------------------------------------------------------------------------------------------------

  /** What the caller is told: the reply of an operation, and whether an append was accepted. */
  datatype Answer = Answer(reply: Option<Reply>, ok: bool)

  datatype Sides = Sides(read: seq<View>, write: seq<View>)

  /** DbConn.cpp: synchronous calls go to the read side, appended commands to the write side. */
  class DbPool {
    const read: DbBase
    const write: DbBase

    ghost predicate Valid()
      reads this, read, read.ring, read.vec, write, write.ring, write.vec
    {
      read != write && read.ring != write.ring && read.Valid() && write.Valid() && read.Quiet() &&
      (forall r :: r in read.vec ==> r !in write.vec)
    }

    ghost predicate Started()
      reads this, read, read.ring, write, write.ring
    {
      read.ring.m.Keys != {} && write.ring.m.Keys != {}
    }

    constructor ()
      ensures Valid() && read.vec == [] && write.vec == []
      ensures fresh(read) && fresh(write) && fresh(read.ring) && fresh(write.ring)
    {
      read := new DbBase();
      write := new DbBase();
    }

    /** DbConn.cpp, lines 81-90: both sides connect to the same servers. */
    method Init(conf: Option<seq<seq<seq<byte>>>>, passworded: bool) returns (ok: bool)
      requires Valid() && (conf.Some? ==> forall names :: names in conf.value ==> names != [])
      modifies read, read.ring, write, write.ring
      ensures Valid() && (ok ==> Started())
      ensures forall i :: 0 <= i < |read.vec| ==> read.vec[i] in old(read.vec) || fresh(read.vec[i])
      ensures forall i :: 0 <= i < |write.vec| ==> write.vec[i] in old(write.vec) || fresh(write.vec[i])
    {
      ok := read.Init(conf, passworded);
      if ok {
        ok := write.Init(conf, passworded);
      }
    }

    /** DbConn.cpp, lines 29-70, one call: it has its effect on the side that it goes to, and none on the other. */
    method Serve(call: Call) returns (answer: Answer)
      requires Valid() && Started()
      modifies read.vec, write.vec
      ensures Valid()
      ensures Served(call, old(Both()), Both(), answer)
    {
      hide DbBase.Effects, DbBase.WriteEffects, Distinct, RedisCtx.Aligned, DbBase.Valid, DbBase.Quiet;
      answer := Answer(None, true);
      read.NoEffect(call, read.Conns());
      write.NoEffect(call, write.Conns());
      if call.Operation? || call.QueryDebug? || call.DelPatternKeys? {
        var reply := ServeRead(call);
        answer := answer.(reply := reply);
        write.Untouched();
      } else {
        var ok := ServeWrite(call);
        answer := answer.(ok := ok);
        read.Untouched();
      }
    }

    /** The connections of the two sides. */
    ghost function Both(): Sides
      reads this, read, read.vec, write, write.vec
    {
      Sides(read.Conns(), write.Conns())
    }

    ghost predicate Served(call: Call, before: Sides, after: Sides, answer: Answer)
      reads this, read, read.ring, write, write.ring
    {
      read.Effects(call, before.read, after.read, answer.reply) &&
      write.WriteEffects(call, before.write, after.write, answer.ok)
    }

    method ServeRead(call: Call) returns (reply: Option<Reply>)
      requires Valid() && Started() && (call.Operation? || call.QueryDebug? || call.DelPatternKeys?)
      modifies read.vec
      ensures Valid()
      ensures read.Effects(call, old(read.Conns()), read.Conns(), reply)
    {
      hide Hash32, Lookup, Answered, Points, Dels, Left, Head, Effect, Distinct, DbBase.Effects;
      hide RedisCtx.Aligned, DbBase.Valid, DbBase.Quiet;
      reply := None;
      match call {
        case Operation(key, id) => reply := read.Operation(key, id);
        case QueryDebug(key, id) => read.QueryDebug(key, id);
        case DelPatternKeys(pattern, spared, legal) => read.DelPatternKeys(pattern, spared, legal);
      }
      write.Untouched();
    }

    method ServeWrite(call: Call) returns (ok: bool)
      requires Valid() && Started() && (call.AppendCmd? || call.Commit? || call.CommitAll?)
      modifies write.vec
      ensures Valid()
      ensures write.WriteEffects(call, old(write.Conns()), write.Conns(), ok)
    {
      hide Hash32, Lookup, Answered, Points, Dels, Left, Head, Distinct, RedisCtx.Aligned, WriteEffect;
      hide DbBase.WriteEffects, DbBase.Valid, DbBase.Quiet;
      ok := true;
      match call {
        case AppendCmd(key, id) => ok := write.AppendCmd(key, id);
        case Commit(key) => write.Commit(key);
        case CommitAll => write.CommitAll();
      }
      read.Untouched();
    }

    /** `trail` shows the connections before the first call and after each: every call had its own effect there and
        no other, and its answer is the one listed. */
    ghost predicate AllServed(calls: seq<Call>, answers: seq<Answer>, trail: seq<Sides>)
      reads this, read, read.ring, write, write.ring
    {
      |answers| == |calls| && |trail| == |calls| + 1 &&
      forall i :: 0 <= i < |calls| ==> Served(calls[i], trail[i], trail[i + 1], answers[i])
    }

    lemma NoneServed(trail: seq<Sides>)
      requires |trail| == 1
      ensures AllServed([], [], trail)
    {
    }

    lemma OneMoreServed(calls: seq<Call>, i: nat, answers: seq<Answer>, trail: seq<Sides>, answer: Answer, now: Sides)
      requires i < |calls| && AllServed(calls[..i], answers, trail)
      requires Served(calls[i], trail[i], now, answer)
      ensures AllServed(calls[..i + 1], answers + [answer], trail + [now])
    {
      hide DbPool.Served;
    }

    /** Whatever is called in whatever order, and whichever calls of hiredis fail, a synchronous call is answered
        with its own reply or not at all, and an append that is accepted is taken. */
    method Run(calls: seq<Call>) returns (answers: seq<Answer>, ghost trail: seq<Sides>)
      requires Valid() && Started()
      modifies read.vec, write.vec
      ensures Valid() && Started() && AllServed(calls, answers, trail)
      ensures trail[0] == old(Both()) && trail[|calls|] == Both()
    {
      hide Effect, WriteEffect, Distinct, DbPool.Served, DbPool.AllServed, RedisCtx.Aligned, DbBase.Conns, DbBase.Quiet;
      answers, trail := [], [Both()];
      NoneServed(trail);
      for i := 0 to |calls|
        invariant Valid() && Started() && AllServed(calls[..i], answers, trail)
        invariant |trail| == i + 1 && trail[0] == old(Both()) && trail[i] == Both()
      {
        var answer := Serve(calls[i]);
        OneMoreServed(calls, i, answers, trail, answer, Both());
        answers, trail := answers + [answer], trail + [Both()];
      }
      assert calls[..|calls|] == calls;
    }
  }

  /** From nothing: a pool is made, connects, and serves any sequence of calls; every reply is the caller's own. */
  method Session(conf: Option<seq<seq<seq<byte>>>>, passworded: bool, calls: seq<Call>)
    returns (ok: bool, pool: DbPool, answers: seq<Answer>, ghost trail: seq<Sides>)
    requires conf.Some? ==> forall names :: names in conf.value ==> names != []
    ensures fresh(pool) && pool.Valid() && (ok ==> pool.Started() && pool.AllServed(calls, answers, trail))
    ensures forall i :: 0 <= i < |answers| && answers[i].reply.Some? ==>
      i < |calls| && calls[i].Operation? && answers[i].reply.value.to == Request(calls[i].id)
  {
    hide Effect, WriteEffect;
    pool := new DbPool();
    ok := pool.Init(conf, passworded);
    answers, trail := [], [];
    if ok {
      answers, trail := pool.Run(calls);
      forall i | 0 <= i < |calls| && answers[i].reply.Some?
        ensures calls[i].Operation? && answers[i].reply.value.to == Request(calls[i].id)
      {
        assert pool.Served(calls[i], trail[i], trail[i + 1], answers[i]);
      }
    }
  }
}
