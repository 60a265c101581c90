/** The loop thread's side of a connection and its channel (NetServer/TcpConnection.cpp,
    NetServer/Channel.h), proved to take the steps of ConnectionSpec. The result of each system call
    is a parameter; the asserts of the source are proved. */
module TcpConnections {
  import opened Octets
  import opened Buffers
  import opened ConnectionSpec

  datatype Event = IN | PRI | OUT

  /** The event mask of a descriptor, kept in step with the poller. */
  class Channel {
    var events: set<Event>
    var registered: bool

    ghost predicate Valid()
      reads this
    {
      registered <==> events != {}
    }

    constructor ()
      ensures Valid() && events == {}
    {
      events, registered := {}, false;
    }

    /** EPoller::updateChannel: a channel that is not in the poller must ask for something. */
    method Update()
      requires registered || events != {}
      modifies `registered
      ensures Valid()
    {
      if !registered {
        registered := true;
      } else if events == {} {
        registered := false;
      }
    }

    method EnableRead()
      requires Valid()
      modifies this
      ensures Valid() && events == old(events) + {IN, PRI}
    {
      events := events + {IN, PRI};
      Update();
    }

    method EnableWrite()
      requires Valid()
      modifies this
      ensures Valid() && events == old(events) + {OUT}
    {
      events := events + {OUT};
      Update();
    }

    /** EPOLLPRI stays in the mask. */
    method DisableRead()
      requires Valid() && registered
      modifies this
      ensures Valid() && events == old(events) - {IN}
    {
      events := events - {IN};
      Update();
    }

    method DisableWrite()
      requires Valid() && registered
      modifies this
      ensures Valid() && events == old(events) - {OUT}
    {
      events := events - {OUT};
      Update();
    }

    method DisableAll()
      requires Valid() && registered
      modifies this
      ensures Valid() && events == {}
    {
      events := {};
      Update();
    }

    predicate IsReading()
      reads this
    {
      IN in events
    }

    predicate IsWriting()
      reads this
    {
      OUT in events
    }
  }

  class TcpConnection {
    var state: ConnectionState
    const channel: Channel
    const outputBuffer: Buffer
    var queue: seq<Job>
    ghost var fin: bool
    ghost var sent: Bytes
    ghost var issued: seq<Message>
    ghost var ran: seq<Ran>

    /** The connection as the specification sees it. */
    ghost function View(): Connection
      requires outputBuffer.Valid()
      reads this, channel, outputBuffer, outputBuffer.buffer
    {
      Connection(state, channel.IsWriting(), outputBuffer.Contents(), fin, queue, sent, issued, ran)
    }

    ghost predicate Valid()
      reads this, channel, outputBuffer, outputBuffer.buffer
    {
      && channel.Valid() && outputBuffer.Valid()
      && Inv(View())
      && (state != Disconnected ==> PRI in channel.events)
    }

    /** The constructor, then connectEstablished. */
    constructor ()
      ensures Valid() && View() == Established()
      ensures fresh(channel) && fresh(outputBuffer) && fresh(outputBuffer.buffer)
    {
      state := Connecting;
      channel := new Channel();
      outputBuffer := new Buffer();
      queue, fin, sent, issued, ran := [], false, [], [], [];
      new;
      state := Connected;
      channel.EnableRead();
    }

    /** sendInLoop, with the result of its write(). */
    method SendInLoop(m: Message, w: Write)
      requires Valid() && Possible(View(), |m.text|, w)
      modifies this, channel, outputBuffer, outputBuffer.buffer
      ensures Valid() && (outputBuffer.buffer == old(outputBuffer.buffer) || fresh(outputBuffer.buffer))
      ensures View() == SendNow(old(View()), m, w)
    {
      hide Conserved;
      ghost var before := View();
      SendKeepsInv(before, m, w);
      if state == Disconnected {
        ran := ran + [Ran(m, false)];
        return;
      }
      var n, faultError := 0, false;
      if !channel.IsWriting() {
        assert outputBuffer.ReadableBytes() == 0;
        match w {
          case Wrote(k) => n := k;
          case Again =>
          case Broken => faultError := true;
        }
      }
      sent := sent + m.text[..n];
      ran := ran + [Ran(m, !faultError)];
      if !faultError && n < |m.text| {
        outputBuffer.Append(m.text[n..]);
        channel.EnableWrite();
      } else {
        assert before.sent + m.text[..0] == before.sent;
        assert !faultError ==> before.out + m.text[n..] == before.out;
        assert View() == SendNow(before, m, w);
      }
    }

    /** shutdownInLoop. */
    method ShutdownInLoop()
      requires channel.Valid() && outputBuffer.Valid()
      modifies `fin
      ensures View() == ShutdownNow(old(View()))
    {
      if state != Disconnected && !channel.IsWriting() {
        fin := true;
      }
    }

    /** handleWrite, called for EPOLLOUT; a close in the same round of events may have come first. */
    method HandleWrite(w: Write)
      requires Valid() && (state != Disconnected ==> channel.IsWriting())
      requires Possible(View(), |outputBuffer.Contents()|, w)
      modifies this, channel, outputBuffer
      ensures Valid() && outputBuffer.buffer == old(outputBuffer.buffer)
      ensures View() == WriteMore(old(View()), w)
    {
      hide Conserved;
      if state == Disconnected { return; }
      WriteKeepsInv(View(), w);
      assert outputBuffer.ReadableBytes() > 0;
      if w.Wrote? {
        sent := sent + outputBuffer.Contents()[..w.n];
        outputBuffer.Retrieve(w.n);
        if outputBuffer.ReadableBytes() == 0 {
          channel.DisableWrite();
          if state == Disconnecting { ShutdownInLoop(); }
        }
      }
    }

    /** handleClose. The callback that drops the last references is not modelled. */
    method HandleClose()
      requires Valid() && (state == Connected || state == Disconnecting)
      modifies this, channel
      ensures Valid() && Enabled(old(View()), PeerCloses) && View() == Effect(old(View()), PeerCloses)
      ensures state == Disconnected && channel.events == {} && sent == old(sent)
    {
      state := Disconnected;
      channel.DisableAll();
      ClosingConserves(old(View()));
    }

    /** One task of the loop's queue. */
    method RunTask(w: Write)
      requires Valid() && Enabled(View(), RunNext(w))
      modifies this, channel, outputBuffer, outputBuffer.buffer
      ensures Valid() && (outputBuffer.buffer == old(outputBuffer.buffer) || fresh(outputBuffer.buffer))
      ensures View() == Effect(old(View()), RunNext(w))
      ensures old(queue)[0].ForceCloseInLoop? ==>
        && state == Disconnected && !channel.IsWriting() && sent == old(sent)
        && (old(state) != Disconnected ==> channel.events == {})
    {
      hide Conserved, WritesWhatItHas, FinIsLast;
      RunNextKeepsInv(View(), w);
      var job := queue[0];
      match job {
        case Send(m) =>
          PopKeepsInv(View());
          queue := queue[1..];
          SendInLoop(m, w);
        case ShutdownInLoop =>
          queue := queue[1..];
          ShutdownInLoop();
        case ForceCloseInLoop =>
          queue := queue[1..];
          if state != Disconnected {
            state := Disconnected;
            channel.DisableAll();
          }
      }
    }

    /** send(), on the loop thread or on another one. */
    method Send(m: Message, w: Write)
      requires Valid() && (m.thread == LOOP_THREAD ==> Possible(View(), |m.text|, w))
      modifies this, channel, outputBuffer, outputBuffer.buffer
      ensures Valid() && (outputBuffer.buffer == old(outputBuffer.buffer) || fresh(outputBuffer.buffer))
      ensures View() ==
        if old(state) != Connected then old(View())
        else if m.thread == LOOP_THREAD then Effect(old(View()), OwnSend(m.text, w))
        else Effect(old(View()), QueueSend(m))
    {
      hide Conserved, WritesWhatItHas, FinIsLast;
      if state != Connected { return; }
      StepKeepsInv(View(), if m.thread == LOOP_THREAD then OwnSend(m.text, w) else QueueSend(m));
      ghost var c := View();
      issued := issued + [m];
      if m.thread == LOOP_THREAD {
        IssuedKeepsInv(c, m);
        SendInLoop(m, w);
      } else {
        queue := queue + [Job.Send(m)];
      }
    }

    /** shutdown(), whose test and exchange of the state are taken as one step. */
    method Shutdown(thread: Thread)
      requires Valid() && state != Disconnected
      modifies this
      ensures Valid() && View() == Effect(old(View()), Action.Shutdown(thread))
    {
      hide Conserved, WritesWhatItHas, FinIsLast;
      StepKeepsInv(View(), Action.Shutdown(thread));
      var was := state;
      state := Disconnecting;
      if was == Connected {
        if thread == LOOP_THREAD {
          ShutdownInLoop();
        } else {
          queue := queue + [Job.ShutdownInLoop];
        }
      }
    }

    method ForceClose()
      requires Valid()
      modifies this
      ensures Valid() && View() == Effect(old(View()), Action.ForceClose)
    {
      hide Conserved, WritesWhatItHas, FinIsLast;
      StepKeepsInv(View(), Action.ForceClose);
      if state != Disconnected {
        state := Disconnecting;
        queue := queue + [ForceCloseInLoop];
      }
    }

    method StopRead()
      requires Valid()
      modifies channel
      ensures Valid() && View() == old(View()) && !channel.IsReading()
    {
      if channel.IsReading() { channel.DisableRead(); }
    }

    method StartRead()
      requires Valid()
      modifies channel
      ensures Valid() && View() == old(View()) && channel.IsReading()
    {
      if !channel.IsReading() { channel.EnableRead(); }
    }
  }

  lemma ClosingConserves(c: Connection)
    requires Inv(c)
    ensures Inv(Close(c))
  {
  }

  lemma PopKeepsInv(c: Connection)
    requires Inv(c) && c.queue != [] && c.queue[0].Send?
    ensures Inv(c.(queue := c.queue[1..]))
  {
    hide Conserved;
    assert Conserved(c) == Conserved(c.(queue := c.queue[1..])) by { ConservedReads(c, c.(queue := c.queue[1..])); }
    assert c.queue == [c.queue[0]] + c.queue[1..];
  }

  lemma IssuedKeepsInv(c: Connection, m: Message)
    requires Inv(c)
    ensures Inv(c.(issued := c.issued + [m]))
  {
    hide Conserved;
    ConservedReads(c, c.(issued := c.issued + [m]));
  }

  lemma ConservedReads(c: Connection, d: Connection)
    requires c.sent == d.sent && c.out == d.out && c.ran == d.ran
    ensures Conserved(c) == Conserved(d)
  {
  }
}
