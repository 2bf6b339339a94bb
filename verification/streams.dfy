/**
 Buffered streams (io.rs): bytes read ahead and writes gathered, over a file
 that gives as few bytes at a time as it likes, against a plain cursor over
 one sequence of bytes.
 */
module Streams {
  import opened Bytes

  datatype IoError = WouldBlock | Closed | GivenUp | Failed

  const READ_CHUNK: nat := 65536
  const WRITE_BUFFER: nat := 65536
  const NEWLINE: byte := 0x0A
  const RETURN: byte := 0x0D

  /** A file as a program that neither reads ahead nor gathers writes has it. */
  datatype Plain = Plain(content: bytes, cursor: nat)

  predicate Within(p: Plain) { p.cursor <= |p.content| }

  function Rest(p: Plain): bytes
    requires Within(p)
  {
    p.content[p.cursor..]
  }

  /** Writing at a place: over what is there, and past its end. */
  function Overwritten(content: bytes, at: nat, data: bytes): (r: bytes)
    requires at <= |content|
    ensures |r| >= at + |data|
  {
    content[..at] + data + (if at + |data| < |content| then content[at + |data|..] else [])
  }

  lemma OverwrittenTwice(content: bytes, at: nat, a: bytes, b: bytes)
    requires at <= |content|
    ensures Overwritten(Overwritten(content, at, a), at + |a|, b) == Overwritten(content, at, a + b)
  {
  }

  lemma OverwrittenNothing(content: bytes, at: nat)
    requires at <= |content|
    ensures Overwritten(content, at, []) == content
  {
  }

  /** Writing at the cursor, which moves past what is written. */
  function Put(p: Plain, data: bytes): (r: Plain)
    requires Within(p)
    ensures Within(r) && r.cursor == p.cursor + |data|
  {
    Plain(Overwritten(p.content, p.cursor, data), p.cursor + |data|)
  }

  /** A failure leaves the file with what was gathered written as far as the
      host took it; the rest is lost. */
  ghost predicate Leaves(base: Plain, gathered: bytes, took: int, after: Plain)
    requires Within(base)
  {
    0 <= took <= |gathered| && after == Put(base, gathered[..took])
  }

  lemma LeavesAll(base: Plain, gathered: bytes)
    requires Within(base)
    ensures Leaves(base, gathered, |gathered|, Put(base, gathered))
  {
    assert gathered[..|gathered|] == gathered;
  }

  lemma LeavesNothing(base: Plain, took: int, after: Plain)
    requires Within(base) && Leaves(base, [], took, after)
    ensures took == 0 && after == base
  {
    OverwrittenNothing(base.content, base.cursor);
  }

  lemma PutTwice(p: Plain, a: bytes, b: bytes)
    requires Within(p)
    ensures Put(Put(p, a), b) == Put(p, a + b)
  {
    OverwrittenTwice(p.content, p.cursor, a, b);
  }

  // ---------------------------------------------------------------------
  // What a file does
  // ---------------------------------------------------------------------

  /** Whether a file's writes fail: never, sometimes, or always, as those of a
      full disk do. */
  datatype Disk = Sturdy | Doubtful | Full

  /** A host file, with its own position. A read gives some of the bytes
      there are, and may fail instead; whether a write may, its disk tells. */
  class Host {
    var content: bytes
    var position: nat
    /** Whether it would have blocked, since `Blocked` last asked. */
    var waiting: bool
    /** Fails where it would block. */
    var givenUp: bool
    /** How many bytes it took of what it was given to write. */
    var taken: nat
    /** How often its trailer was asked for. */
    var finishes: nat
    const disk: Disk

    ghost predicate Positioned()
      reads this
    {
      position <= |content|
    }

    constructor (content: bytes, disk: Disk)
      ensures Positioned() && this.content == content && this.disk == disk
      ensures position == taken == finishes == 0 && !waiting && !givenUp
    {
      this.content, this.disk := content, disk;
      position, taken, finishes, waiting, givenUp := 0, 0, 0, false, false;
    }

    method Fail() returns (error: IoError)
      modifies this`waiting
      ensures error == WouldBlock ==> waiting && !givenUp
      ensures error != WouldBlock ==> waiting == old(waiting)
      ensures error == GivenUp ==> givenUp
      ensures error != Closed
    {
      if * {
        if givenUp { return GivenUp; }
        waiting := true;
        return WouldBlock;
      }
      return Failed;
    }

    method Read(most: nat) returns (r: Result<bytes, IoError>)
      requires Positioned() && most > 0
      modifies this`position, this`waiting
      ensures Positioned()
      ensures r.Ok? ==>
              position == old(position) + |r.value| && |r.value| <= most && r.value == content[old(position)..position]
      ensures r.Ok? && r.value == [] ==> old(position) == |content|
      ensures r.Err? ==> position == old(position)
      ensures r == Err(WouldBlock) ==> waiting && !givenUp
      ensures r != Err(WouldBlock) ==> waiting == old(waiting)
      ensures r != Err(Closed)
    {
      if * {
        var error := Fail();
        return Err(error);
      }
      if position == |content| { return Ok([]); }
      assert 1 <= 1 <= most && 1 <= |content| - position;
      var n: nat :| 1 <= n <= most && n <= |content| - position;
      r := Ok(content[position..position + n]);
      position := position + n;
    }

    /** Writes some of the data, all of it unless it fails. */
    method Write(data: bytes) returns (r: Result<(), IoError>)
      requires Positioned()
      modifies this`content, this`position, this`waiting, this`taken
      ensures Positioned() && old(taken) <= taken <= old(taken) + |data|
      ensures position == old(position) + (taken - old(taken))
      ensures content == Overwritten(old(content), old(position), data[..taken - old(taken)])
      ensures r.Ok? ==> taken == old(taken) + |data|
      ensures r.Err? ==> !disk.Sturdy? && r.error != Closed
      ensures disk.Full? ==> r == Err(Failed) && taken == old(taken)
      ensures r == Err(WouldBlock) ==> taken == old(taken) && waiting && !givenUp
      ensures r != Err(WouldBlock) ==> waiting == old(waiting)
    {
      var n := |data|;
      r := Ok(());
      if disk.Full? {
        n, r := 0, Err(Failed);
      } else if disk.Doubtful? {
        if * {
          var error := Fail();
          r := Err(error);
          // Some of the data may have been written.
          n := 0;
          if error != WouldBlock { n :| 0 <= n <= |data|; }
        }
      }
      OverwrittenNothing(content, position);
      assert data[..|data|] == data && data[..0] == [];
      content, position, taken := Overwritten(content, position, data[..n]), position + n, taken + n;
    }

    method Flush() returns (r: Result<(), IoError>)
      modifies this`waiting
      ensures r == Err(WouldBlock) ==> waiting && !givenUp
      ensures r != Err(WouldBlock) ==> waiting == old(waiting)
      ensures r != Err(Closed)
    {
      if * {
        var error := Fail();
        return Err(error);
      }
      return Ok(());
    }

    /** The trailer, for a host that has one; what it is is not modelled. */
    method Finish() returns (r: Result<(), IoError>)
      modifies this`waiting, this`finishes
      ensures finishes == old(finishes) + 1
    {
      finishes := finishes + 1;
      r := Flush();
    }

    method Back(count: nat) returns (r: Result<(), IoError>)
      requires Positioned() && count <= position
      modifies this`position
      ensures Positioned()
      ensures r.Ok? ==> position == old(position) - count
      ensures r.Err? ==> position == old(position) && r.error == Failed
    {
      if * { return Err(Failed); }
      position := position - count;
      return Ok(());
    }
  }

  // ---------------------------------------------------------------------
  // The stream
  // ---------------------------------------------------------------------

  /** The bytes read ahead are those just before the host's position. */
  ghost predicate Follows(content: bytes, at: nat, unread: bytes) {
    |unread| <= at <= |content| && unread == content[at - |unread|..at]
  }

  lemma FollowsMore(content: bytes, at: nat, unread: bytes, read: bytes)
    requires Follows(content, at, unread) && at + |read| <= |content| && read == content[at..at + |read|]
    ensures Follows(content, at + |read|, unread + read)
  {
    var lo, hi := at - |unread|, at + |read|;
    assert content[lo..hi] == content[lo..at] + content[at..hi];
  }

  lemma FollowsLess(content: bytes, at: nat, unread: bytes, k: nat)
    requires Follows(content, at, unread) && k <= |unread|
    ensures Follows(content, at, unread[k..])
    ensures unread[..k] == content[at - |unread|..][..k]
  {
  }

  lemma FollowsNothing(content: bytes, at: nat)
    requires at <= |content|
    ensures Follows(content, at, [])
  {
  }

  lemma FollowsRest(content: bytes, at: nat, unread: bytes)
    requires Follows(content, at, unread)
    ensures unread == content[at - |unread|..][..|unread|]
    ensures at == |content| ==> unread == content[at - |unread|..]
  {
  }

  /** A chunk of the content put after the unread bytes follows them. */
  lemma ChunkFollows(content: bytes, at: nat, ahead: bytes, position: nat, start: nat, chunk: bytes)
    requires position <= start && start + |chunk| <= |ahead| && Follows(content, at, ahead[position..start])
    requires at + |chunk| <= |content| && chunk == content[at..at + |chunk|]
    ensures var n := |chunk|;
            Follows(content, at + n, (ahead[..start] + chunk + ahead[start + n..])[position..start + n])
  {
    var n := |chunk|;
    assert (ahead[..start] + chunk + ahead[start + n..])[position..start + n] == ahead[position..start] + chunk;
    FollowsMore(content, at, ahead[position..start], chunk);
  }

  class Stream {
    var host: Host?
    /** Bytes read ahead, `ahead[position..filled]`, and room for more. */
    var ahead: bytes
    var position: nat
    var filled: nat
    /** Writes gathered before they reach the host. */
    var pending: bytes
    const buffered: bool

    ghost predicate Valid()
      reads this, host
    {
      && position <= filled <= |ahead|
      && (host != null ==>
            && host.Positioned()
            && Follows(host.content, host.position, ahead[position..filled])
            && (position < filled ==> pending == [])
            && (!buffered ==> pending == []))
    }

    /** The plain file the stream stands for. */
    ghost function Value(): (p: Plain)
      requires Valid() && host != null
      reads this, host
      ensures Within(p)
    {
      if pending != [] then Put(Base(), pending) else Base()
    }

    /** The same without what is gathered: the host's content, before what was
        read ahead of it. */
    ghost function Base(): (p: Plain)
      requires Valid() && host != null
      reads this, host
      ensures Within(p)
    {
      Plain(host.content, host.position - (filled - position))
    }

    lemma ValueIsPut()
      requires Valid() && host != null
      ensures Value() == Put(Base(), pending)
    {
      OverwrittenNothing(Base().content, Base().cursor);
    }

    constructor (host: Host, buffered: bool)
      requires host.Positioned()
      ensures Valid() && this.host == host && this.buffered == buffered && fresh(this)
      ensures Value() == Plain(host.content, host.position) && pending == [] && position == filled
    {
      this.host, this.buffered := host, buffered;
      ahead, position, filled, pending := [], 0, 0, [];
    }

    method Flush() returns (r: Result<(), IoError>)
      requires Valid()
      modifies this`pending, host
      ensures Valid() && host == old(host)
      ensures host != null ==> host.givenUp == old(host.givenUp) && host.finishes == old(host.finishes)
      ensures host == null ==> r == Err(Closed)
      ensures host != null && r.Ok? ==> Value() == old(Value()) && pending == [] && host.content == old(Value()).content
      ensures host != null && r.Ok? ==> host.taken == old(host.taken) + |old(pending)|
      ensures host != null && host.disk.Full? && old(pending) != [] ==>
              r == Err(Failed) && host.taken == old(host.taken)
      ensures host != null && r.Err? ==> pending == [] && r.error != Closed
      ensures host != null && r.Err? ==> Leaves(old(Base()), old(pending), host.taken - old(host.taken), Value())
      ensures host != null && r.Err? ==> (Value() == old(Value()) <==> host.taken == old(host.taken) + |old(pending)|)
      ensures host != null && r.Err? && host.disk.Sturdy? ==> Value() == old(Value())
      ensures host != null && r == Err(WouldBlock) ==> host.waiting && !host.givenUp
      ensures host != null && r != Err(WouldBlock) ==> host.waiting == old(host.waiting)
    {
      if host == null {
        pending := [];
        return Err(Closed);
      }
      ValueIsPut();
      LeavesAll(Base(), pending);
      if pending != [] {
        var gathered := pending;
        pending := [];
        var written := host.Write(gathered);
        assert gathered[..|gathered|] == gathered;
        if written.Err? { return written; }
      }
      r := host.Flush();
    }

    /** Before writing: the host goes back over the bytes read ahead. */
    method Unread() returns (r: Result<(), IoError>)
      requires Valid()
      modifies this`position, this`filled, host
      ensures Valid() && host == old(host) && (host != null ==> host.givenUp == old(host.givenUp))
      ensures host != null ==> Value() == old(Value()) && Base() == old(Base())
      ensures host != null ==> host.waiting == old(host.waiting) && host.taken == old(host.taken)
      ensures pending == old(pending) && (r.Ok? ==> position == filled == 0)
      ensures r.Err? ==> position == old(position) < filled == old(filled)
      ensures r.Err? ==> r.error == (if host == null then Closed else Failed)
    {
      var rest := filled - position;
      if rest > 0 {
        if host == null { return Err(Closed); }
        r := host.Back(rest);
        if r.Err? { return; }
      }
      position, filled := 0, 0;
      return Ok(());
    }

    /** One read of the host, behind what is ahead already; false when it gave
        nothing. */
    method Fill() returns (r: Result<bool, IoError>)
      requires Valid()
      modifies this, host
      ensures Valid() && host == old(host) && (host != null ==> host.givenUp == old(host.givenUp))
      ensures host == null ==> r == Err(Closed)
      ensures host != null && r.Ok? ==> Value() == old(Value()) && host.taken == old(host.taken) + |old(pending)|
      ensures host != null && r.Err? ==> Leaves(old(Base()), old(pending), host.taken - old(host.taken), Value())
      ensures host != null && r.Err? ==> (Value() == old(Value()) <==> host.taken == old(host.taken) + |old(pending)|)
      ensures host != null && r.Err? && host.disk.Sturdy? ==> Value() == old(Value())
      ensures host != null && host.disk.Full? && old(pending) != [] ==>
              r == Err(Failed) && host.taken == old(host.taken)
      ensures host != null ==> pending == []
      ensures host != null && r.Ok? ==>
              filled - position <= |Rest(Value())| && ahead[position..filled] == Rest(Value())[..filled - position]
      ensures host != null && r == Ok(true) ==> filled - position > old(filled) - old(position)
      ensures host != null && r == Ok(false) ==>
              filled - position == old(filled) - old(position) && ahead[position..filled] == Rest(Value())
      ensures host != null && r == Err(WouldBlock) ==> host.waiting && !host.givenUp
      ensures host != null && r != Err(WouldBlock) ==> host.waiting == old(host.waiting)
    {
      hide Follows, Overwritten, Put, Leaves;
      if host != null {
        ValueIsPut();
        LeavesAll(Base(), pending);
      }
      if pending != [] {
        var flushed := Flush();
        if flushed.Err? { return Err(flushed.error); }
      }
      MakeRoom();
      if host == null { return Err(Closed); }
      r := Append(filled);
    }

    /** Makes room for a chunk after the bytes read ahead. */
    method MakeRoom()
      requires Valid() && (host != null ==> pending == [])
      modifies this`ahead, this`position, this`filled
      ensures Valid() && filled + READ_CHUNK <= |ahead|
      ensures filled - position == old(filled - position)
      ensures host != null ==> Base() == old(Base())
    {
      hide Follows;
      ghost var unread := ahead[position..filled];
      if position == filled { position, filled := 0, 0; }
      if |ahead| < filled + READ_CHUNK { ahead := ahead + Zeroed(filled + READ_CHUNK - |ahead|); }
      assert ahead[position..filled] == unread;
    }

    /** Puts what the host gives after the bytes read ahead. */
    method Append(start: nat) returns (r: Result<bool, IoError>)
      requires Valid() && host != null && pending == [] && start == filled && start + READ_CHUNK <= |ahead|
      modifies this`ahead, this`filled, host
      ensures Valid() && host.givenUp == old(host.givenUp) && Value() == old(Value()) && host.taken == old(host.taken)
      ensures filled - position <= |Rest(Value())| && ahead[position..filled] == Rest(Value())[..filled - position]
      ensures r == Ok(true) ==> filled > old(filled)
      ensures r == Ok(false) ==> filled == old(filled) && ahead[position..filled] == Rest(Value())
      ensures r.Err? ==> r.error != Closed
      ensures r == Err(WouldBlock) ==> host.waiting && !host.givenUp
      ensures r != Err(WouldBlock) ==> host.waiting == old(host.waiting)
    {
      hide Follows, Overwritten, Put, Leaves;
      FollowsRest(host.content, host.position, ahead[position..filled]);
      var read := host.Read(READ_CHUNK);
      if read.Err? { return Err(read.error); }
      var n := |read.value|;
      ChunkFollows(host.content, host.position - n, ahead, position, start, read.value);
      ahead := ahead[..start] + read.value + ahead[start + n..];
      filled := filled + n;
      FollowsRest(host.content, host.position, ahead[position..filled]);
      return Ok(n > 0);
    }

    /** The next bytes: some, at most `max`, if there are; `None` at the end. */
    method Read(max: nat) returns (r: Result<Option<bytes>, IoError>)
      requires Valid()
      modifies this, host
      ensures Valid() && host == old(host) && (host != null ==> host.givenUp == old(host.givenUp))
      ensures host == null && old(position) == old(filled) ==> r == Err(Closed)
      ensures host != null && r.Ok? ==> ReadGives(old(Value()), max, r.value, Value())
      ensures host != null && r.Err? ==> pending == []
      ensures host != null && host.disk.Full? && old(pending) != [] ==>
              r == Err(Failed) && host.taken == old(host.taken)
      ensures host != null && r.Err? ==> Leaves(old(Base()), old(pending), host.taken - old(host.taken), Value())
      ensures host != null && r.Err? ==> (Value() == old(Value()) <==> host.taken == old(host.taken) + |old(pending)|)
      ensures host != null && r.Err? && host.disk.Sturdy? ==> Value() == old(Value())
      ensures host != null && r == Err(WouldBlock) ==> host.waiting && !host.givenUp
      ensures host != null && r != Err(WouldBlock) ==> host.waiting == old(host.waiting)
    {
      hide Follows, Overwritten, Put, Leaves;
      if position == filled {
        var more := Fill();
        if more.Err? { return Err(more.error); }
        if !more.value { return Ok(None); }
      }
      var end := if position + max < filled then position + max else filled;
      var taken := ahead[position..end];
      if host != null { AheadSplits(end); }
      position := end;
      return Ok(Some(taken));
    }

    lemma AheadSplits(end: nat)
      requires Valid() && host != null && position <= end <= filled && position < filled
      ensures ahead[position..end] == Rest(Value())[..end - position]
      ensures Follows(host.content, host.position, ahead[end..filled])
    {
      FollowsLess(host.content, host.position, ahead[position..filled], end - position);
      assert ahead[position..filled][..end - position] == ahead[position..end];
      assert ahead[position..filled][end - position..] == ahead[end..filled];
    }

    /** The next line without its end, or `None` at the end. */
    method ReadLine() returns (r: Result<Option<bytes>, IoError>)
      requires Valid()
      modifies this, host
      ensures Valid() && host == old(host) && (host != null ==> host.givenUp == old(host.givenUp))
      ensures host != null && r.Ok? ==> LineGives(old(Value()), r.value, Value())
      ensures host != null && r.Err? ==> Leaves(old(Base()), old(pending), host.taken - old(host.taken), Value())
      ensures host != null && r.Err? ==> (Value() == old(Value()) <==> host.taken == old(host.taken) + |old(pending)|)
      ensures host != null && r.Err? && host.disk.Sturdy? ==> Value() == old(Value())
      ensures host != null && r == Err(WouldBlock) ==> host.waiting && !host.givenUp
      ensures host != null && r != Err(WouldBlock) ==> host.waiting == old(host.waiting)
    {
      hide LineGives, LineEnd, Chomped, Follows, Overwritten, Put, Leaves;
      ghost var before := if host != null then Value() else Plain([], 0);
      if host != null {
        ValueIsPut();
        LeavesAll(Base(), pending);
      }
      while true
        invariant Valid() && host == old(host)
        invariant host != null ==> host.givenUp == old(host.givenUp) && host.waiting == old(host.waiting)
        invariant host != null ==> Value() == before
        invariant host != null && pending != [] ==>
                  pending == old(pending) && Base() == old(Base()) && host.taken == old(host.taken)
        invariant host != null && pending == [] ==> host.taken == old(host.taken) + |old(pending)|
        decreases host == null, |pending|, |Rest(before)| - (filled - position)
      {
        ghost var unread := ahead[position..filled];
        if LineEnd(ahead[position..filled]) < filled - position {
          var line := TakeLine();
          return Ok(Some(line));
        }
        if host != null { UnreadIsNext(); }
        ghost var taken := if host != null then host.taken else 0;
        ghost var gathered := pending;
        var more := Fill();
        if more.Err? {
          if host != null && gathered == [] { LeavesNothing(before, host.taken - taken, Value()); }
          return Err(more.error);
        }
        if !more.value {
          assert ahead[position..filled] == unread;
          var last := TakeLast();
          return Ok(last);
        }
      }
    }

    /** The line read ahead, which a newline ends. */
    method TakeLine() returns (line: bytes)
      requires Valid() && LineEnd(ahead[position..filled]) < filled - position
      modifies this`position
      ensures Valid()
      ensures host != null ==> LineGives(old(Value()), Some(line), Value())
    {
      hide LineGives, Chomped, Follows, Overwritten, LineEnd;
      ghost var unread := ahead[position..filled];
      var end := LineEnd(ahead[position..filled]);
      assert ahead[position..position + end] == unread[..end];
      if host != null {
        UnreadIsNext();
        LineFound(Value(), unread);
        AheadSplits(position + end + 1);
      }
      line := Chomped(ahead[position..position + end]);
      position := position + end + 1;
    }

    /** What is left when no newline ends it. */
    method TakeLast() returns (line: Option<bytes>)
      requires Valid() && LineEnd(ahead[position..filled]) == filled - position
      requires host != null ==> ahead[position..filled] == Rest(Value())
      modifies this`position
      ensures Valid()
      ensures host != null ==> LineGives(old(Value()), line, Value())
    {
      hide LineGives, Follows;
      if host != null { LineLast(Value()); }
      if position == filled { return None; }
      line := Some(ahead[position..filled]);
      position := filled;
      assert ahead[position..filled] == [];
      if host != null { FollowsNothing(host.content, host.position); }
    }

    lemma UnreadIsNext()
      requires Valid() && host != null
      ensures filled - position <= |Rest(Value())| && ahead[position..filled] == Rest(Value())[..filled - position]
    {
      if position < filled { AheadSplits(filled); }
    }

    /** All the bytes that are left. */
    method ReadRest() returns (r: Result<bytes, IoError>)
      requires Valid()
      modifies this, host
      ensures Valid() && host == old(host) && (host != null ==> host.givenUp == old(host.givenUp))
      ensures host == null ==> r == Err(Closed)
      ensures host != null && r.Ok? ==>
                r.value == Rest(old(Value())) && Value() == old(Value()).(cursor := |old(Value()).content|)
      ensures host != null && r.Err? ==> Leaves(old(Base()), old(pending), host.taken - old(host.taken), Value())
      ensures host != null && r.Err? ==> (Value() == old(Value()) <==> host.taken == old(host.taken) + |old(pending)|)
      ensures host != null && r.Err? && host.disk.Sturdy? ==> Value() == old(Value())
      ensures host != null && r == Err(WouldBlock) ==> host.waiting && !host.givenUp
      ensures host != null && r != Err(WouldBlock) ==> host.waiting == old(host.waiting)
    {
      hide Follows, Overwritten, Put, Leaves;
      // All of it is kept until none is left, for a read that has to be repeated.
      ghost var before := if host != null then Value() else Plain([], 0);
      if host != null {
        ValueIsPut();
        LeavesAll(Base(), pending);
      }
      while true
        invariant Valid() && host == old(host)
        invariant host != null ==> host.givenUp == old(host.givenUp) && host.waiting == old(host.waiting)
        invariant host != null ==> Value() == before
        invariant host != null && pending != [] ==>
                  pending == old(pending) && Base() == old(Base()) && host.taken == old(host.taken)
        invariant host != null && pending == [] ==> host.taken == old(host.taken) + |old(pending)|
        decreases host == null, |pending|, |Rest(before)| - (filled - position)
      {
        ghost var taken := if host != null then host.taken else 0;
        ghost var gathered := pending;
        var more := Fill();
        if more.Err? {
          if host != null && gathered == [] { LeavesNothing(before, host.taken - taken, Value()); }
          return Err(more.error);
        }
        if !more.value { break; }
      }
      r := Ok(ahead[position..filled]);
      position, filled := 0, 0;
      assert ahead[position..filled] == [];
      if host != null { FollowsNothing(host.content, host.position); }
    }

    /** Writes over what comes next, or gathers it to be written. */
    method Write(data: bytes) returns (r: Result<(), IoError>)
      requires Valid()
      modifies this, host
      ensures Valid() && host == old(host) && (host != null ==> host.givenUp == old(host.givenUp))
      ensures host == null ==> r == Err(Closed)
      ensures host != null && r.Ok? ==> Value() == Put(old(Value()), data)
      ensures host != null && r.Err? ==> Leaves(old(Base()), old(pending) + data, host.taken - old(host.taken), Value())
      ensures host != null && r.Err? ==> (Value() == old(Value()) <==> host.taken == old(host.taken) + |old(pending)|)
      ensures host != null && r.Err? && host.disk.Sturdy? ==>
              Value() == old(Value()) || Value() == Put(old(Value()), data)
      ensures host != null && r == Err(WouldBlock) && !buffered ==> Value() == old(Value())
      ensures host != null && |old(pending)| + |data| < WRITE_BUFFER && buffered && old(position) == old(filled) ==>
                r.Ok? && pending == old(pending) + data && Base() == old(Base())
      ensures host != null && r == Err(WouldBlock) ==> host.waiting && !host.givenUp
      ensures host != null && r != Err(WouldBlock) ==> host.waiting == old(host.waiting)
    {
      hide Follows, Overwritten;
      if host != null {
        ValueIsPut();
        OverwrittenNothing(Base().content, Base().cursor);
        PutTwice(Base(), pending, data);
        LeavesAll(Base(), pending + data);
      }
      var back := Unread();
      if back.Err? { return back; }
      if host == null { return Err(Closed); }
      if !buffered {
        assert pending == [] && pending + data == data;
        r := host.Write(data);
        FollowsNothing(host.content, host.position);
        return;
      }
      pending := pending + data;
      ValueIsPut();
      if |pending| >= WRITE_BUFFER { r := Flush(); } else { r := Ok(()); }
    }

    /** Writes what is gathered and the trailer, and lets the host go;
        one that would block before then stays open. */
    method Close() returns (r: Result<(), IoError>)
      requires Valid()
      modifies this, host
      ensures Valid()
      ensures old(host) == null ==> r == Ok(()) && host == null
      ensures old(host) != null && host == null ==> old(host).finishes == old(host.finishes) + 1
      ensures host != null ==> host == old(host) && r == Err(WouldBlock) && host.finishes == old(host.finishes)
      ensures old(host) != null && r.Ok? ==> host == null && old(host).content == old(Value()).content
    {
      if host == null { return Ok(()); }
      var flushed := Flush();
      if flushed == Err(WouldBlock) { return flushed; }
      var finished := host.Finish();
      host := null;
      return if flushed.Ok? then finished else flushed;
    }
  }

  // ---------------------------------------------------------------------
  // Operations that would block
  // ---------------------------------------------------------------------

  datatype Op = Reads(max: nat) | ReadsLine | ReadsRest | Writes(data: bytes) | Flushes

  datatype Outcome = Bytes(read: Option<bytes>) | All(rest: bytes) | Done

  /** What an operation does to a plain file. */
  ghost predicate Gives(op: Op, before: Plain, outcome: Outcome, after: Plain)
    requires Within(before)
  {
    match op
    case Reads(max) => outcome.Bytes? && ReadGives(before, max, outcome.read, after)
    case ReadsLine => outcome.Bytes? && LineGives(before, outcome.read, after)
    case ReadsRest => outcome == All(Rest(before)) && after == before.(cursor := |before.content|)
    case Writes(data) => outcome == Done && after == Put(before, data)
    case Flushes => outcome == Done && after == before
  }

  /** What an operation gives the file to write. */
  function Given(op: Op): bytes { if op.Writes? then op.data else [] }

  method Do(stream: Stream, host: Host, op: Op) returns (r: Result<Outcome, IoError>)
    requires stream.Valid() && stream.host == host
    modifies stream, host
    ensures stream.Valid() && stream.host == host && host.givenUp == old(host.givenUp)
    ensures r.Ok? ==> Gives(op, old(stream.Value()), r.value, stream.Value())
    ensures r.Err? ==>
              Leaves(old(stream.Base()), old(stream.pending) + Given(op), host.taken - old(host.taken), stream.Value())
    ensures r.Err? ==> (stream.Value() == old(stream.Value()) <==>
            host.taken == old(host.taken) + |old(stream.pending)|)
    ensures r.Ok? || host.disk.Sturdy? ==> Told(op, old(stream.Value()), r, stream.Value())
    ensures r.Err? && !op.Writes? && !stream.buffered ==> stream.Value() == old(stream.Value())
    ensures r == Err(WouldBlock) && !stream.buffered ==> stream.Value() == old(stream.Value())
    ensures r == Err(WouldBlock) ==> host.waiting && !host.givenUp
    ensures r != Err(WouldBlock) ==> host.waiting == old(host.waiting)
    ensures op.Flushes? && r.Ok? ==> host.content == stream.Value().content
  {
    hide LineGives, Follows, Overwritten;
    assert stream.pending + [] == stream.pending;
    match op {
      case Reads(max) =>
        var read := stream.Read(max);
        r := if read.Ok? then Ok(Bytes(read.value)) else Err(read.error);
      case ReadsLine =>
        var read := stream.ReadLine();
        r := if read.Ok? then Ok(Bytes(read.value)) else Err(read.error);
      case ReadsRest =>
        var read := stream.ReadRest();
        r := if read.Ok? then Ok(All(read.value)) else Err(read.error);
      case Writes(data) =>
        var written := stream.Write(data);
        r := if written.Ok? then Ok(Done) else Err(written.error);
      case Flushes =>
        var flushed := stream.Flush();
        r := if flushed.Ok? then Ok(Done) else Err(flushed.error);
    }
  }

  /** What a program may see of a plain file: what the operation gives, or a
      failure that does nothing, or that comes once the writing is done. */
  ghost predicate Told(op: Op, before: Plain, r: Result<Outcome, IoError>, after: Plain)
    requires Within(before)
  {
    match r
    case Ok(outcome) => Gives(op, before, outcome, after)
    case Err(_) => after == before || (op.Writes? && after == Put(before, op.data))
  }

  /** An operation on a stream whose host never blocks, which does not gather
      writes: it runs again each time the host may go on, until it is done or
      the wait ends, and does to the plain file what one operation does. */
  method RunReady(stream: Stream, host: Host, op: Op, patience: nat) returns (r: Result<Outcome, IoError>)
    requires stream.Valid() && stream.host == host && !stream.buffered
    requires !host.waiting && !host.givenUp
    modifies stream, host
    ensures stream.Valid() && stream.host == host
    ensures r.Ok? ==> Gives(op, old(stream.Value()), r.value, stream.Value())
    ensures r.Err? && !op.Writes? ==> stream.Value() == old(stream.Value())
    ensures r != Err(WouldBlock) && !host.waiting && !host.givenUp
  {
    hide Gives;
    var left := patience;
    while true
      invariant stream.Valid() && stream.host == host && !host.waiting && !host.givenUp
      invariant stream.Value() == old(stream.Value())
      decreases left
    {
      r := Do(stream, host, op);
      var blocked := host.waiting;
      host.waiting := false;
      if !blocked { return; }
      if left == 0 { break; }
      left := left - 1;
    }
    host.givenUp := true;
    r := Do(stream, host, op);
    host.givenUp := false;
  }

  // ---------------------------------------------------------------------
  // Runs
  // ---------------------------------------------------------------------

  /** Operations one after another, of which the `i`-th finds the plain file
      `files[i]` and leaves `files[i + 1]`: one that did not fail, or that
      was given to a host whose writes do not, as it would leave it. */
  ghost predicate Runs(ops: seq<Op>, files: seq<Plain>, results: seq<Result<Outcome, IoError>>, sturdy: bool) {
    && |results| == |ops| && |files| == |ops| + 1
    && (forall i :: 0 <= i < |files| ==> Within(files[i]))
    && forall i :: 0 <= i < |ops| ==> results[i].Ok? || sturdy ==> Told(ops[i], files[i], results[i], files[i + 1])
  }

  lemma RunsMore(ops: seq<Op>, files: seq<Plain>, results: seq<Result<Outcome, IoError>>, sturdy: bool,
                 op: Op, r: Result<Outcome, IoError>, after: Plain)
    requires Runs(ops, files, results, sturdy) && Within(after)
    requires r.Ok? || sturdy ==> Told(op, files[|ops|], r, after)
    ensures Runs(ops + [op], files + [after], results + [r], sturdy)
  {
    hide Told, Within;
  }

  /** Any run of operations gives, at each, what the plain file then allows;
      and a flush at the end leaves that file. */
  method RunAll(stream: Stream, host: Host, ops: seq<Op>)
    returns (results: seq<Result<Outcome, IoError>>, ghost files: seq<Plain>)
    requires stream.Valid() && stream.host == host
    modifies stream, host
    ensures stream.Valid() && stream.host == host
    ensures Runs(ops, files, results, host.disk.Sturdy?)
    ensures files[0] == old(stream.Value()) && files[|ops|] == stream.Value()
    ensures ops != [] && ops[|ops| - 1].Flushes? && results[|ops| - 1].Ok? ==> host.content == files[|ops|].content
  {
    hide Told, Gives, Leaves;
    results, files := [], [stream.Value()];
    for n := 0 to |ops|
      invariant stream.Valid() && stream.host == host
      invariant Runs(ops[..n], files, results, host.disk.Sturdy?)
      invariant files[0] == old(stream.Value()) && files[n] == stream.Value()
      invariant n > 0 && ops[n - 1].Flushes? && results[n - 1].Ok? ==> host.content == files[n].content
    {
      var r := Do(stream, host, ops[n]);
      RunsMore(ops[..n], files, results, host.disk.Sturdy?, ops[n], r, stream.Value());
      assert ops[..n] + [ops[n]] == ops[..n + 1];
      results, files := results + [r], files + [stream.Value()];
    }
    assert ops[..|ops|] == ops;
  }

  /** However few bytes the host gives at a time, lines, the rest and what is
      written are the same, in any two runs without a failure. */
  lemma {:induction false} RunsAgree(ops: seq<Op>, files: seq<Plain>, results: seq<Result<Outcome, IoError>>,
                                     sturdy: bool,
                                     files': seq<Plain>, results': seq<Result<Outcome, IoError>>, sturdy': bool)
    requires Runs(ops, files, results, sturdy) && Runs(ops, files', results', sturdy') && files[0] == files'[0]
    requires forall i :: 0 <= i < |ops| ==> !ops[i].Reads? && results[i].Ok? && results'[i].Ok?
    ensures files == files' && results == results'
  {
    if ops != [] {
      var n := |ops| - 1;
      RunsAgree(ops[..n], files[..|ops|], results[..n], sturdy, files'[..|ops|], results'[..n], sturdy');
      assert files[n] == files[..|ops|][n] == files'[..|ops|][n] == files'[n];
      assert results == results[..n] + [results[n]] && results' == results'[..n] + [results'[n]];
      assert files == files[..|ops|] + [files[|ops|]] && files' == files'[..|ops|] + [files'[|ops|]];
      hide LineEnd, Chomped, Overwritten;
      assert results[n] == results'[n] && files[|ops|] == files'[|ops|];
    }
  }

  lemma NoneTaken(after: Plain)
    requires Leaves(Plain([1, 2], 0), [9], 0, after)
    ensures after == Plain([1, 2], 0)
  {
  }

  lemma FirstIsOne(got: Option<bytes>, after: Plain)
    requires ReadGives(Plain([1, 2], 0), 1, got, after)
    ensures got == Some([1])
  {
    assert Rest(Plain([1, 2], 0)) == [1, 2];
    if got.Some? { assert |got.value| == 1 && got.value == [1, 2][..1] == [1]; }
  }

  lemma OneForAnother()
    ensures !exists after :: ReadGives(Put(Plain([1, 2], 0), [9]), 1, Some([1]), after)
  {
    assert Put(Plain([1, 2], 0), [9]) == Plain([9, 2], 1) && Rest(Plain([9, 2], 1)) == [2];
    assert [1][0] != [2][..1][0];
  }

  /** A byte gathered for a full disk is lost, and the next read gives what
      it was to replace. */
  method FullDiskLoses() returns (first: Result<Option<bytes>, IoError>, again: Result<Option<bytes>, IoError>,
                       left: bytes)
    ensures first == Err(Failed)
    ensures again.Ok? ==> again.value == Some([1])
    ensures !exists after :: ReadGives(Put(Plain([1, 2], 0), [9]), 1, Some([1]), after)
    ensures left == [1, 2]
  {
    hide Put, Overwritten, Leaves, ReadGives, Follows;
    OneForAnother();
    var host := new Host([1, 2], Full);
    var stream := new Stream(host, true);
    var _ := stream.Write([9]);
    assert stream.Base() == Plain([1, 2], 0) && stream.pending == [9];
    first := stream.Read(1);
    left := host.content;
    NoneTaken(stream.Value());
    again := stream.Read(1);
    if again.Ok? { FirstIsOne(again.value, stream.Value()); }
  }

  /** A prefix with a newline tells where the line ends. */
  lemma {:induction false} LineEndOf(s: bytes, rest: bytes)
    requires |s| <= |rest| && s == rest[..|s|] && LineEnd(s) < |s|
    ensures LineEnd(rest) == LineEnd(s)
  {
    assert forall i :: 0 <= i < |s| ==> rest[i] == s[i];
  }

  lemma LineFound(before: Plain, unread: bytes)
    requires Within(before) && |unread| <= |Rest(before)| && unread == Rest(before)[..|unread|]
             && LineEnd(unread) < |unread|
    ensures var end := LineEnd(unread);
            LineGives(before, Some(Chomped(unread[..end])), before.(cursor := before.cursor + end + 1))
  {
    LineEndOf(unread, Rest(before));
    assert Rest(before)[..LineEnd(unread)] == unread[..LineEnd(unread)];
  }

  lemma LineLast(before: Plain)
    requires Within(before) && LineEnd(Rest(before)) == |Rest(before)|
    ensures LineGives(before, if Rest(before) == [] then None else Some(Rest(before)),
            before.(cursor := |before.content|))
  {
  }

  /** What a read of at most `max` bytes may give of a plain file. */
  ghost predicate ReadGives(before: Plain, max: nat, got: Option<bytes>, after: Plain)
    requires Within(before)
  {
    match got
    case Some(read) =>
      && |read| <= max && |read| <= |Rest(before)| && read == Rest(before)[..|read|]
      && (read == [] ==> max == 0)
      && after == before.(cursor := before.cursor + |read|)
    case None => after == before && Rest(before) == []
  }

  /** How many bytes come before the first newline, or in all. */
  function LineEnd(s: bytes): (n: nat)
    ensures n <= |s| && (forall i :: 0 <= i < n ==> s[i] != NEWLINE) && (n < |s| ==> s[n] == NEWLINE)
  {
    if s == [] || s[0] == NEWLINE then 0 else 1 + LineEnd(s[1..])
  }

  /** A line without the return before its newline. */
  function Chomped(line: bytes): bytes {
    if line != [] && line[|line| - 1] == RETURN then line[..|line| - 1] else line
  }

  /** What reading a line of a plain file gives: up to a newline, or the rest
      of it, as it is; which depends on the file alone. */
  ghost predicate LineGives(before: Plain, got: Option<bytes>, after: Plain)
    requires Within(before)
  {
    var rest := Rest(before);
    var end := LineEnd(rest);
    if rest == [] then got == None && after == before
    else if end < |rest| then got == Some(Chomped(rest[..end])) && after == before.(cursor := before.cursor + end + 1)
    else got == Some(rest) && after == before.(cursor := |before.content|)
  }

  function Zeroed(n: nat): (r: bytes)
    ensures |r| == n
  {
    seq(n, _ => 0)
  }

  /** A line is what comes before the first newline, without one return before
      it; the last may have no newline, and is then as it is. */
  lemma LineIs(before: Plain, line: bytes, rest: bytes, got: Option<bytes>, after: Plain)
    requires Within(before) && (forall i :: 0 <= i < |line| ==> line[i] != NEWLINE)
    requires Rest(before) == line + rest && (rest == [] || rest[0] == NEWLINE)
    ensures LineGives(before, got, after) <==>
            && (got == None <==> line == [] && rest == [])
            && (rest == [] && line != [] ==> got == Some(line))
            && (rest != [] ==>
                  && (forall body: bytes :: line == body + [RETURN] ==> got == Some(body))
                  && ((line == [] || line[|line| - 1] != RETURN) ==> got == Some(line)))
            && after == before.(cursor := before.cursor + |line| + (if rest == [] then 0 else 1))
  {
    var all := Rest(before);
    FirstNewline(line, rest);
    assert all[..|line|] == line && (rest == [] ==> all == line) && (all == [] <==> line == [] && rest == []);
    if line != [] && line[|line| - 1] == RETURN {
      var cut := line[..|line| - 1];
      assert line == cut + [RETURN];
      forall body: bytes | line == body + [RETURN] ensures body == cut {
        assert (body + [RETURN])[..|body|] == body;
      }
    }
    assert before.(cursor := before.cursor + 0) == before;
  }

  lemma {:induction false} FirstNewline(line: bytes, rest: bytes)
    requires (forall i :: 0 <= i < |line| ==> line[i] != NEWLINE) && (rest == [] || rest[0] == NEWLINE)
    ensures LineEnd(line + rest) == |line|
  {
    if line == [] {
      assert line + rest == rest;
    } else {
      assert (line + rest)[1..] == line[1..] + rest;
      FirstNewline(line[1..], rest);
    }
  }
}
