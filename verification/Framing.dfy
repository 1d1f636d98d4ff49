/** Rebuilding lines from a byte stream that arrives in arbitrary pieces, in one fixed buffer. */
module Framing {

  const CLIENT_BUF_SIZE: nat := 4096
  /** One byte of the buffer is never filled. */
  const CAPACITY: nat := 4095

  // ---------------------------------------------------------------- the lines of a whole stream

  /** The position of the first newline, or the length when there is none. */
  function FirstNewline(s: string): (k: nat)
    ensures k <= |s| && '\n' !in s[..k] && (k < |s| ==> s[k] == '\n')
  {
    if s == [] || s[0] == '\n' then 0
    else
      var k := FirstNewline(s[1..]);
      assert s[..k + 1] == [s[0]] + s[1..][..k];
      k + 1
  }

  /** The complete lines, without their newlines. */
  function Lines(s: string): seq<string> {
    var k := FirstNewline(s);
    if k == |s| then [] else [s[..k]] + Lines(s[k + 1..])
  }

  /** What follows the last newline. */
  function Rest(s: string): string {
    var k := FirstNewline(s);
    if k == |s| then s else Rest(s[k + 1..])
  }

  lemma {:induction false} FirstNewlineIs(s: string, k: nat)
    requires k <= |s| && '\n' !in s[..k] && (k < |s| ==> s[k] == '\n')
    ensures FirstNewline(s) == k
  {
    if k > 0 {
      assert s[0] in s[..k];
      assert s[1..][..k - 1] == s[..k][1..];
      FirstNewlineIs(s[1..], k - 1);
    }
  }

  /** A part without newlines only delays the next one. */
  lemma FirstNewlineLater(r: string, b: string)
    requires '\n' !in r
    ensures FirstNewline(r + b) == |r| + FirstNewline(b)
  {
    var j := FirstNewline(b);
    assert (r + b)[..|r| + j] == r + b[..j];
    FirstNewlineIs(r + b, |r| + j);
  }

  /** Taking one line off a stream. */
  lemma {:induction false} LineStep(s: string)
    ensures var k := FirstNewline(s);
            if k == |s| then Lines(s) == [] && Rest(s) == s
            else Lines(s) == [s[..k]] + Lines(s[k + 1..]) && Rest(s) == Rest(s[k + 1..])
  {
  }

  /** Splitting a stream anywhere: the second part continues the unfinished line of the first. */
  lemma {:induction false} SplitStream(a: string, b: string)
    ensures Lines(a + b) == Lines(a) + Lines(Rest(a) + b) && Rest(a + b) == Rest(Rest(a) + b)
    decreases |a|
  {
    hide Lines, Rest;
    var k := FirstNewline(a);
    LineStep(a);
    if k < |a| {
      SplitStream(a[k + 1..], b);
      SplitLine(a, b, k);
    } else {
      assert Lines(a) + Lines(Rest(a) + b) == Lines(Rest(a) + b);
    }
  }

  lemma SplitLine(a: string, b: string, k: nat)
    requires k == FirstNewline(a) < |a|
    ensures Lines(a + b) == [a[..k]] + Lines(a[k + 1..] + b) && Rest(a + b) == Rest(a[k + 1..] + b)
  {
    hide Lines, Rest;
    assert (a + b)[..k] == a[..k];
    FirstNewlineIs(a + b, k);
    LineStep(a + b);
    hide FirstNewline;
    assert (a + b)[k + 1..] == a[k + 1..] + b;
  }

  /** Lines with a newline behind each. */
  function Joined(ls: seq<string>): string {
    if ls == [] then "" else ls[0] + "\n" + Joined(ls[1..])
  }

  ghost predicate Plain(ls: seq<string>) {
    forall l | l in ls :: '\n' !in l
  }

  /** Lines and remainder are the stream, cut at its newlines and nowhere else; there is only one such cut. */
  lemma {:induction false} LinesExact(s: string, ls: seq<string>, r: string)
    ensures Plain(ls) && '\n' !in r && Joined(ls) + r == s <==> ls == Lines(s) && r == Rest(s)
    decreases |s|
  {
    hide Lines, Rest;
    var k := FirstNewline(s);
    LineStep(s);
    if k == |s| {
      assert s[..k] == s;
      assert Joined([]) + s == s;
      if ls == [] {
        assert Joined(ls) + r == r;
      } else {
        JoinedHead(ls, r);
        NewlineInside(ls[0], Joined(ls[1..]) + r);
      }
    } else {
      var rest := s[k + 1..];
      assert s == s[..k] + "\n" + rest;
      LinesExact(rest, Lines(rest), Rest(rest));
      JoinedCons(s[..k], Lines(rest));
      assert s == Joined(Lines(s)) + Rest(s);
      if Plain(ls) && '\n' !in r && Joined(ls) + r == s {
        FirstOfJoined(ls, r, s);
        LinesExact(rest, ls[1..], r);
      }
    }
  }

  lemma JoinedCons(l: string, ls: seq<string>)
    ensures Joined([l] + ls) == l + "\n" + Joined(ls)
    ensures '\n' !in l && Plain(ls) ==> Plain([l] + ls)
  {
    assert ([l] + ls)[1..] == ls;
  }

  lemma JoinedHead(ls: seq<string>, r: string)
    requires ls != []
    ensures Joined(ls) + r == ls[0] + "\n" + (Joined(ls[1..]) + r)
  {
  }

  lemma NewlineInside(l: string, more: string)
    ensures '\n' in l + "\n" + more
    ensures '\n' !in l ==>
              var s := l + "\n" + more; FirstNewline(s) == |l| && s[..|l|] == l && s[|l| + 1..] == more
  {
    var s := l + "\n" + more;
    assert s[|l|] == '\n' && s[..|l|] == l && s[|l| + 1..] == more;
    if '\n' !in l { FirstNewlineIs(s, |l|); }
  }

  lemma FirstOfJoined(ls: seq<string>, r: string, s: string)
    requires Plain(ls) && '\n' !in r && Joined(ls) + r == s && FirstNewline(s) < |s|
    ensures ls != [] && ls[0] == s[..FirstNewline(s)] && Joined(ls[1..]) + r == s[FirstNewline(s) + 1..]
    ensures Plain(ls[1..]) && ls == [ls[0]] + ls[1..]
  {
    assert Joined([]) + r == r;
    assert s[FirstNewline(s)] in s;
    if ls != [] {
      JoinedHead(ls, r);
      assert ls[0] in ls && Plain(ls[1..]);
      hide Joined, Plain;
      NewlineInside(ls[0], Joined(ls[1..]) + r);
    }
  }

  lemma {:induction false} RestPlain(s: string)
    ensures '\n' !in Rest(s) && |Rest(s)| <= |s|
    decreases |s|
  {
    var k := FirstNewline(s);
    if k < |s| { RestPlain(s[k + 1..]); } else { assert s[..k] == s; }
  }

  lemma {:induction false} LinesShort(s: string)
    ensures forall l | l in Lines(s) :: |l| < |s|
    decreases |s|
  {
    var k := FirstNewline(s);
    if k < |s| { LinesShort(s[k + 1..]); }
  }

  // ---------------------------------------------------------------- chunk by chunk

  /** What a full buffer keeps: nothing, the buffer is reset. */
  function Kept(pending: string): string { if |pending| >= CAPACITY then [] else pending }

  /** The most one receive may bring. */
  function Room(pending: string): nat { CAPACITY - |Kept(pending)| }

  ghost function Pending(chunks: seq<string>): string {
    if chunks == [] then []
    else
      var n := |chunks| - 1;
      Rest(Kept(Pending(chunks[..n])) + chunks[n])
  }

  ghost function Delivered(chunks: seq<string>): seq<string> {
    if chunks == [] then []
    else
      var n := |chunks| - 1;
      Delivered(chunks[..n]) + Lines(Kept(Pending(chunks[..n])) + chunks[n])
  }

  /** Every receive brings at least one byte and no more than there is room for. */
  ghost predicate Fits(chunks: seq<string>) {
    chunks != [] ==>
      var n := |chunks| - 1;
      Fits(chunks[..n]) && 1 <= |chunks[n]| <= Room(Pending(chunks[..n]))
  }

  /** Some receive finds the buffer full of an unfinished line and throws it away. */
  ghost predicate Resets(chunks: seq<string>) {
    && chunks != []
    && var n := |chunks| - 1;
       Resets(chunks[..n]) || |Pending(chunks[..n])| >= CAPACITY
  }

  function Concat(chunks: seq<string>): string {
    if chunks == [] then [] else Concat(chunks[..|chunks| - 1]) + chunks[|chunks| - 1]
  }

  /** A line that the buffer cannot hold together with its newline, or a remainder it cannot hold. */
  ghost predicate TooLong(s: string) {
    (exists l :: l in Lines(s) && |l| > 4094) || |Rest(s)| > CAPACITY
  }

  lemma {:induction false} FitsAt(chunks: seq<string>, i: nat)
    requires Fits(chunks) && i < |chunks|
    ensures 1 <= |chunks[i]| <= Room(Pending(chunks[..i]))
  {
    var n := |chunks| - 1;
    if i < n {
      FitsAt(chunks[..n], i);
      assert chunks[..n][..i] == chunks[..i];
    }
  }

  /** Without a reset the parser is handed exactly the lines of the whole stream, however it was cut. */
  lemma {:induction false} ChunkingIndependent(chunks: seq<string>)
    requires Fits(chunks) && !Resets(chunks)
    ensures Delivered(chunks) == Lines(Concat(chunks)) && Pending(chunks) == Rest(Concat(chunks))
  {
    if chunks == [] {
    } else {
      var n := |chunks| - 1;
      ChunkingIndependent(chunks[..n]);
      SplitStream(Concat(chunks[..n]), chunks[n]);
    }
  }

  lemma LongGrows(a: string, b: string)
    requires TooLong(a) || (|Rest(a)| >= CAPACITY && b != [])
    ensures TooLong(a + b)
  {
    SplitStream(a, b);
    if exists l :: l in Lines(a) && |l| > 4094 {
      var l :| l in Lines(a) && |l| > 4094;
      assert l in Lines(a + b);
    } else {
      var s := Rest(a) + b;
      RestPlain(a);
      FirstNewlineLater(Rest(a), b);
      var k := FirstNewline(s);
      if k < |s| { assert s[..k] in Lines(s); assert s[..k] in Lines(a + b); }
    }
  }

  /** The reset branch is taken exactly on streams with an oversized line: the cuts do not matter. */
  lemma {:induction false} ResetIff(chunks: seq<string>)
    requires Fits(chunks)
    ensures Resets(chunks) <==> TooLong(Concat(chunks))
  {
    if chunks != [] {
      var n := |chunks| - 1;
      ResetIff(chunks[..n]);
      if Resets(chunks) {
        if !Resets(chunks[..n]) { ChunkingIndependent(chunks[..n]); }
        LongGrows(Concat(chunks[..n]), chunks[n]);
      } else {
        ChunkingIndependent(chunks[..n]);
        ChunkingIndependent(chunks);
        var s := Rest(Concat(chunks[..n])) + chunks[n];
        SplitStream(Concat(chunks[..n]), chunks[n]);
        LinesShort(s);
        RestPlain(s);
      }
    }
  }

  ghost predicate LongLine(s: string) {
    exists l :: l in Lines(s) && |l| > 4094
  }

  /** While no complete line is oversized, only an oversized remainder can be lost. */
  lemma {:induction false} DeliveredStep(chunks: seq<string>)
    requires Fits(chunks) && !LongLine(Concat(chunks))
    ensures Delivered(chunks) == Lines(Concat(chunks))
    ensures Pending(chunks) == Rest(Concat(chunks)) || |Rest(Concat(chunks))| >= CAPACITY
  {
    if chunks != [] {
      var n := |chunks| - 1;
      var front, c := Concat(chunks[..n]), chunks[n];
      var rest, kept := Rest(front), Kept(Pending(chunks[..n]));
      SplitStream(front, c);
      forall l | l in Lines(front) ensures |l| <= 4094 { assert l in Lines(Concat(chunks)); }
      DeliveredStep(chunks[..n]);
      if kept != rest {
        RestPlain(front);
        FirstNewlineLater(rest, c);
        FirstLine(rest + c);
        forall l | l in Lines(rest + c) ensures |l| <= 4094 { assert l in Lines(Concat(chunks)); }
        assert FirstNewline(c) == |c|;
        PendingPlain(chunks[..n]);
        FirstNewlineLater(kept, c);
      }
    }
  }

  lemma FirstLine(s: string)
    ensures FirstNewline(s) < |s| ==> s[..FirstNewline(s)] in Lines(s)
  {
  }

  lemma PendingPlain(chunks: seq<string>)
    ensures '\n' !in Pending(chunks)
  {
    if chunks != [] {
      var n := |chunks| - 1;
      RestPlain(Kept(Pending(chunks[..n])) + chunks[n]);
    }
  }

  lemma {:induction false} DeliveredShort(chunks: seq<string>)
    requires Fits(chunks)
    ensures forall l | l in Delivered(chunks) :: |l| <= 4094
  {
    if chunks != [] {
      var n := |chunks| - 1;
      DeliveredShort(chunks[..n]);
      LinesShort(Kept(Pending(chunks[..n])) + chunks[n]);
    }
  }

  /** Exactly when the parser is handed the lines of the stream: no complete line is oversized. */
  lemma DeliveredIff(chunks: seq<string>)
    requires Fits(chunks)
    ensures Delivered(chunks) == Lines(Concat(chunks)) <==> forall l | l in Lines(Concat(chunks)) :: |l| <= 4094
  {
    DeliveredShort(chunks);
    if !LongLine(Concat(chunks)) {
      DeliveredStep(chunks);
    }
  }

  /** 4095 plain bytes and then a newline: the second receive finds the buffer full, throws the line away, and hands
      out an empty one. */
  lemma ResetLosesLine() returns (chunks: seq<string>)
    ensures chunks == [seq(4095, _ => 'x'), "\n"]
    ensures Fits(chunks) && Resets(chunks)
    ensures Delivered(chunks) == [""] && Lines(Concat(chunks)) == [seq(4095, _ => 'x')]
  {
    var x := seq(4095, _ => 'x');
    chunks := [x, "\n"];
    assert chunks[..1] == [x] && [x][..0] == [];
    assert x[..|x|] == x;
    FirstNewlineIs(x, |x|);
    LineStep(x);
    assert [] + x == x;
    assert Pending([x]) == x && Delivered([x]) == [];
    LineStep("\n");
    assert Lines("\n") == [""];
    assert Delivered(chunks) == [""];
    assert Concat([x]) == x;
    FirstNewlineLater(x, "\n");
    LineStep(x + "\n");
    assert (x + "\n")[..4095] == x && (x + "\n")[4096..] == "";
  }

  // ---------------------------------------------------------------- the buffer

  class Client {
    const buf: array<char>
    var bufLen: nat

    ghost predicate Valid()
      reads this
    {
      buf.Length == CLIENT_BUF_SIZE && bufLen <= CAPACITY
    }

    ghost function Held(): string
      requires Valid()
      reads this, buf
    {
      buf[..bufLen]
    }

    constructor ()
      ensures Valid() && Held() == [] && fresh(buf)
    {
      buf := new char[CLIENT_BUF_SIZE](_ => '\0');
      bufLen := 0;
    }

    /** The next newline at or after `start`, as `memchr` finds it; the end when there is none. */
    method FindNewline(start: nat) returns (end: nat)
      requires Valid() && start <= bufLen
      ensures start <= end <= bufLen && end - start == FirstNewline(buf[start..bufLen])
    {
      end := start;
      while end < bufLen && buf[end] != '\n'
        invariant start <= end <= bufLen && '\n' !in buf[start..end]
      {
        end := end + 1;
      }
      assert buf[start..bufLen][..end - start] == buf[start..end];
      FirstNewlineIs(buf[start..bufLen], end - start);
    }

    /** Store received bytes behind those held. */
    method Store(chunk: string)
      requires Valid() && |chunk| <= CAPACITY - bufLen
      modifies this`bufLen, buf
      ensures Valid() && Held() == old(Held()) + chunk
    {
      forall i | 0 <= i < |chunk| {
        buf[bufLen + i] := chunk[i];
      }
      bufLen := bufLen + |chunk|;
    }

    /** Move the unfinished line to the front. */
    method Compact(start: nat)
      requires Valid() && start <= bufLen
      modifies this`bufLen, buf
      ensures Valid() && Held() == old(Held())[start..]
    {
      var remaining := bufLen - start;
      if remaining > 0 && start != 0 {
        forall i | 0 <= i < remaining {
          buf[i] := buf[start + i];
        }
      }
      bufLen := remaining;
    }

    /** Hand out the complete lines held; what is left starts at `start`. */
    method TakeLines() returns (lines: seq<string>, start: nat)
      requires Valid()
      ensures start <= bufLen
      ensures lines == Lines(Held()) && Held()[start..] == Rest(Held())
    {
      hide Lines, Rest, FirstNewline;
      ghost var all := Held();
      start := 0;
      lines := [];
      assert all[0..] == all;
      while true
        invariant start <= bufLen
        invariant lines + Lines(all[start..]) == Lines(all) && Rest(all[start..]) == Rest(all)
        decreases bufLen - start
      {
        var end := FindNewline(start);
        assert buf[start..bufLen] == all[start..];
        LineStep(all[start..]);
        if end == bufLen { break; }
        assert all[start..][..end - start] == buf[start..end];
        assert all[start..][end - start + 1..] == all[end + 1..];
        lines := lines + [buf[start..end]];
        start := end + 1;
      }
    }

    /** One receive: reset when full, store, hand out every complete line, keep the rest. */
    method Receive(chunk: string) returns (lines: seq<string>)
      requires Valid() && 1 <= |chunk| <= Room(Held())
      modifies this`bufLen, buf
      ensures Valid()
      ensures lines == Lines(Kept(old(Held())) + chunk)
      ensures Held() == Rest(Kept(old(Held())) + chunk)
    {
      hide Lines, Rest;
      var space := CLIENT_BUF_SIZE - bufLen - 1;
      if space <= 0 {
        bufLen := 0;
      }
      Store(chunk);
      assert Held() == Kept(old(Held())) + chunk;
      var start;
      lines, start := TakeLines();
      Compact(start);
    }
  }

  /** A whole connection: exactly on streams without an oversized line are the lines handed out those of the bytes. */
  method ReceiveAll(chunks: seq<string>) returns (lines: seq<string>)
    requires Fits(chunks)
    ensures lines == Delivered(chunks)
    ensures lines == Lines(Concat(chunks)) <==> forall l | l in Lines(Concat(chunks)) :: |l| <= 4094
  {
    var client := new Client();
    lines := [];
    assert chunks[..0] == [];
    for i := 0 to |chunks|
      invariant client.Valid() && fresh(client) && fresh(client.buf)
      invariant client.Held() == Pending(chunks[..i]) && lines == Delivered(chunks[..i])
    {
      assert chunks[..i + 1][..i] == chunks[..i];
      FitsAt(chunks, i);
      var more := client.Receive(chunks[i]);
      lines := lines + more;
    }
    assert chunks[..|chunks|] == chunks;
    DeliveredIff(chunks);
  }
}
