/** The shadow runtime: one book per submission behind a shared directory, with concurrent requests.
    The book is any deterministic engine: a state and a step function from state and request to state and answer. */
module Isolation {
  import Lob
  import Shadow

  const CLEAR_ABOVE: nat := 100

  type Submission = string

  datatype CallAt = Begun | Missed | Holding(book: nat)

  datatype Call<R> = Call(sub: Submission, req: R, at: CallAt)

  datatype Served<R, A> = Served(sub: Submission, req: R, answer: A)

  datatype State<B, R, A> = State(
    books: seq<B>,                      // every book ever made; a request may hold one the directory forgot
    directory: map<Submission, nat>,
    calls: map<nat, Call<R>>,
    seen: set<Submission>,              // submissions started or asked for so far
    served: seq<Served<R, A>>)          // in lock order

  datatype Action<R> =
    | Start(sub: Submission)
    | Begin(call: nat, sub: Submission, req: R)
    | Lookup(call: nat)
    | Create(call: nat)
    | Serve(call: nat)

  /** White space as Unicode defines it. */
  predicate White(c: char) {
    var u := c as int;
    || 0x09 <= u <= 0x0D || u == 0x20 || u == 0x85 || u == 0xA0 || u == 0x1680
    || 0x2000 <= u <= 0x200A || u == 0x2028 || u == 0x2029 || u == 0x202F || u == 0x205F || u == 0x3000
  }

  /** Nothing is left of the id when it is trimmed. */
  predicate Blank(sub: Submission) { forall i | 0 <= i < |sub| :: White(sub[i]) }

  /** A start under a blank id is refused before the directory is looked at. */
  predicate Enabled<B, R, A>(s: State<B, R, A>, a: Action<R>) {
    match a
    case Start(sub) => !Blank(sub)
    case Begin(c, _, _) => c !in s.calls
    case Lookup(c) => c in s.calls && s.calls[c].at.Begun?
    case Create(c) => c in s.calls && s.calls[c].at.Missed?
    case Serve(c) => c in s.calls && s.calls[c].at.Holding? && s.calls[c].at.book < |s.books|
  }

  /** Put a new book in the directory. */
  function Install<B, R, A>(s: State<B, R, A>, sub: Submission, init: B): State<B, R, A> {
    s.(books := s.books + [init], directory := s.directory[sub := |s.books|])
  }

  function Apply<B, R, A>(s: State<B, R, A>, a: Action<R>, init: B, step: (B, R) -> (B, A)): State<B, R, A>
    requires Enabled(s, a)
  {
    match a
    case Start(sub) =>
      Install(if |s.directory| > CLEAR_ABOVE then s.(directory := map[]) else s, sub, init)
      .(seen := s.seen + {sub})
    case Begin(c, sub, req) =>
      s.(calls := s.calls[c := Call(sub, req, Begun)], seen := s.seen + {sub})
    case Lookup(c) =>
      var sub := s.calls[c].sub;
      var at := if sub in s.directory then Holding(s.directory[sub]) else Missed;
      s.(calls := s.calls[c := s.calls[c].(at := at)])
    case Create(c) =>
      var sub := s.calls[c].sub;
      var t := if sub in s.directory then s else Install(s, sub, init);
      t.(calls := t.calls[c := t.calls[c].(at := Holding(t.directory[sub]))])
    case Serve(c) =>
      var k := s.calls[c].at.book;
      var (b, answer) := step(s.books[k], s.calls[c].req);
      s.(books := s.books[k := b], calls := s.calls - {c},
         served := s.served + [Served(s.calls[c].sub, s.calls[c].req, answer)])
  }

  // ---------------------------------------------------------------- a submission on its own

  /** The book after the requests `rs`, run alone on a fresh one. */
  function Alone<B, R, A>(rs: seq<R>, init: B, step: (B, R) -> (B, A)): B {
    if rs == [] then init else step(Alone(rs[..|rs| - 1], init, step), rs[|rs| - 1]).0
  }

  function AloneAnswers<B, R, A>(rs: seq<R>, init: B, step: (B, R) -> (B, A)): seq<A> {
    if rs == [] then []
    else AloneAnswers(rs[..|rs| - 1], init, step) + [step(Alone(rs[..|rs| - 1], init, step), rs[|rs| - 1]).1]
  }

  /** The requests of one submission, in lock order. */
  function RequestsOf<R, A>(served: seq<Served<R, A>>, sub: Submission): seq<R> {
    if served == [] then []
    else
      var n := |served| - 1;
      RequestsOf(served[..n], sub) + (if served[n].sub == sub then [served[n].req] else [])
  }

  function AnswersOf<R, A>(served: seq<Served<R, A>>, sub: Submission): seq<A> {
    if served == [] then []
    else
      var n := |served| - 1;
      AnswersOf(served[..n], sub) + (if served[n].sub == sub then [served[n].answer] else [])
  }

  // ---------------------------------------------------------------- the invariant

  /** The directory is one-to-one, every call that holds a book holds the one the directory has, and unknown
      submissions were never served. */
  ghost predicate Linked<B, R, A>(s: State<B, R, A>) {
    && s.directory.Keys <= s.seen
    && (forall x | x in s.directory :: s.directory[x] < |s.books|)
    && (forall x, y | x in s.directory && y in s.directory && x != y :: s.directory[x] != s.directory[y])
    && (forall c | c in s.calls :: s.calls[c].sub in s.seen)
    && (forall c | c in s.calls && s.calls[c].at.Holding? ::
          s.calls[c].sub in s.directory && s.calls[c].at.book == s.directory[s.calls[c].sub])
  }

  /** The book of `sub` is what its own requests make of a fresh one, and so are its answers. */
  ghost predicate IsolatedFor<B(!new), R(!new), A(!new)>(s: State<B, R, A>, sub: Submission, init: B, step: (B, R) -> (B, A)) {
    var own := RequestsOf(s.served, sub);
    && AnswersOf(s.served, sub) == AloneAnswers(own, init, step)
    && (if sub !in s.directory then own == []
        else s.directory[sub] < |s.books| && s.books[s.directory[sub]] == Alone(own, init, step))
  }

  ghost predicate Isolated<B(!new), R(!new), A(!new)>(s: State<B, R, A>, init: B, step: (B, R) -> (B, A)) {
    forall sub :: IsolatedFor(s, sub, init, step)
  }

  /** A start comes before any other use of its submission. */
  predicate Orderly<B, R, A>(s: State<B, R, A>, a: Action<R>) {
    a.Start? ==> a.sub !in s.seen
  }

  lemma ServedSnoc<R, A>(served: seq<Served<R, A>>, e: Served<R, A>, sub: Submission)
    ensures RequestsOf(served + [e], sub) == RequestsOf(served, sub) + (if e.sub == sub then [e.req] else [])
    ensures AnswersOf(served + [e], sub) == AnswersOf(served, sub) + (if e.sub == sub then [e.answer] else [])
  {
    assert (served + [e])[..|served|] == served;
  }

  lemma AloneSnoc<B, R, A>(rs: seq<R>, r: R, init: B, step: (B, R) -> (B, A))
    ensures Alone(rs + [r], init, step) == step(Alone(rs, init, step), r).0
    ensures AloneAnswers(rs + [r], init, step) == AloneAnswers(rs, init, step) + [step(Alone(rs, init, step), r).1]
  {
    assert (rs + [r])[..|rs|] == rs;
  }

  lemma DirectorySmall<B, R, A>(s: State<B, R, A>)
    requires Linked(s)
    ensures |s.directory| <= |s.seen|
  {
    SubsetSize(s.directory.Keys, s.seen);
  }

  lemma {:induction false} SubsetSize<T>(a: set<T>, b: set<T>)
    requires a <= b
    ensures |a| <= |b|
  {
    if a != {} {
      var x :| x in a;
      SubsetSize(a - {x}, b - {x});
    }
  }

  /** Installing a book for a submission that has none. */
  lemma InstallKeeps<B(!new), R(!new), A(!new)>(s: State<B, R, A>, sub: Submission, init: B, step: (B, R) -> (B, A))
    requires Linked(s) && Isolated(s, init, step) && sub !in s.directory && sub in s.seen
    ensures Linked(Install(s, sub, init)) && Isolated(Install(s, sub, init), init, step)
  {
    hide AnswersOf, AloneAnswers, RequestsOf;
    var t := Install(s, sub, init);
    forall x ensures IsolatedFor(t, x, init, step) {
      assert IsolatedFor(s, x, init, step);
    }
  }

  lemma ServeLinked<B(!new), R(!new), A(!new)>(s: State<B, R, A>, c: nat, init: B, step: (B, R) -> (B, A))
    requires Linked(s) && Enabled(s, Serve(c))
    ensures Linked(Apply(s, Serve(c), init, step))
  {
  }

  lemma ServeIsolated<B(!new), R(!new), A(!new)>(s: State<B, R, A>, c: nat, init: B, step: (B, R) -> (B, A))
    requires Linked(s) && Isolated(s, init, step) && Enabled(s, Serve(c))
    ensures Isolated(Apply(s, Serve(c), init, step), init, step)
  {
    hide Alone, AloneAnswers, RequestsOf, AnswersOf;
    var t := Apply(s, Serve(c), init, step);
    var call := s.calls[c];
    var e := t.served[|s.served|];
    var k := s.directory[call.sub];
    forall x ensures IsolatedFor(t, x, init, step) {
      ServedSnoc(s.served, e, x);
      assert IsolatedFor(s, x, init, step);
      if x == call.sub {
        AloneSnoc(RequestsOf(s.served, x), call.req, init, step);
      } else {
        assert RequestsOf(s.served, x) + [] == RequestsOf(s.served, x);
        assert AnswersOf(s.served, x) + [] == AnswersOf(s.served, x);
        if x in s.directory { assert s.directory[x] != k; }
      }
    }
  }

  /** A step that changes neither books, directory nor what was served. */
  lemma SameBooks<B(!new), R(!new), A(!new)>(s: State<B, R, A>, t: State<B, R, A>, init: B, step: (B, R) -> (B, A))
    requires Isolated(s, init, step) && t.books == s.books && t.directory == s.directory && t.served == s.served
    ensures Isolated(t, init, step)
  {
    hide Alone, AloneAnswers, RequestsOf, AnswersOf;
    forall x ensures IsolatedFor(t, x, init, step) {
      assert IsolatedFor(s, x, init, step);
    }
  }

  lemma StartKeeps<B(!new), R(!new), A(!new)>(s: State<B, R, A>, sub: Submission, init: B, step: (B, R) -> (B, A))
    requires Linked(s) && Isolated(s, init, step) && Enabled(s, Start(sub)) && sub !in s.seen
    requires |s.seen + {sub}| <= CLEAR_ABOVE + 1
    ensures var t := Apply(s, Start(sub), init, step); Linked(t) && Isolated(t, init, step)
  {
    hide Isolated;
    DirectorySmall(s);
    var u := s.(seen := s.seen + {sub});
    SameBooks(s, u, init, step);
    InstallKeeps(u, sub, init, step);
  }

  lemma CreateKeeps<B(!new), R(!new), A(!new)>(s: State<B, R, A>, c: nat, init: B, step: (B, R) -> (B, A))
    requires Linked(s) && Isolated(s, init, step) && Enabled(s, Create(c))
    ensures var t := Apply(s, Create(c), init, step); Linked(t) && Isolated(t, init, step)
  {
    hide Isolated;
    var t := Apply(s, Create(c), init, step);
    var sub := s.calls[c].sub;
    if sub !in s.directory {
      InstallKeeps(s, sub, init, step);
      SameBooks(Install(s, sub, init), t, init, step);
    } else {
      SameBooks(s, t, init, step);
    }
  }

  lemma StepKeeps<B(!new), R(!new), A(!new)>(s: State<B, R, A>, a: Action<R>, init: B, step: (B, R) -> (B, A))
    requires Linked(s) && Isolated(s, init, step) && Enabled(s, a) && Orderly(s, a)
    requires |Apply(s, a, init, step).seen| <= CLEAR_ABOVE + 1
    ensures Linked(Apply(s, a, init, step)) && Isolated(Apply(s, a, init, step), init, step)
  {
    hide Isolated;
    var t := Apply(s, a, init, step);
    match a {
      case Start(sub) =>
        StartKeeps(s, sub, init, step);
      case Begin(c, sub, _) =>
        SameBooks(s, t, init, step);
      case Lookup(c) =>
        SameBooks(s, t, init, step);
      case Create(c) =>
        CreateKeeps(s, c, init, step);
      case Serve(c) =>
        ServeLinked(s, c, init, step);
        ServeIsolated(s, c, init, step);
    }
  }

  // ---------------------------------------------------------------- starting again

  /** A start gives the submission a fresh book, also when it had one.  With at most 100 books in the directory nobody
      else is touched; with more, everybody else is forgotten. */
  lemma StartResets<B, R, A>(s: State<B, R, A>, sub: Submission, init: B, step: (B, R) -> (B, A))
    requires Enabled(s, Start(sub))
    ensures var t := Apply(s, Start(sub), init, step);
            && sub in t.directory && t.directory[sub] < |t.books| && t.books[t.directory[sub]] == init
            && t.directory.Keys == (if |s.directory| <= 100 then s.directory.Keys else {}) + {sub}
            && (forall x | x in t.directory && x != sub :: x in s.directory && t.directory[x] == s.directory[x])
            && (forall k | 0 <= k < |s.books| :: t.books[k] == s.books[k]) && t.served == s.served
  {
  }

  /** A request that comes after a start, with no other one in between, is answered from a fresh book. */
  lemma FreshAfterStart<B, R, A>(s: State<B, R, A>, sub: Submission, c: nat, req: R, init: B, step: (B, R) -> (B, A))
    requires Enabled(s, Start(sub)) && c !in s.calls
    ensures var t1 := Apply(s, Start(sub), init, step);
            Enabled(t1, Begin(c, sub, req)) &&
            var t2 := Apply(t1, Begin(c, sub, req), init, step);
            Enabled(t2, Lookup(c)) &&
            var t3 := Apply(t2, Lookup(c), init, step);
            Enabled(t3, Serve(c)) &&
            Apply(t3, Serve(c), init, step).served == s.served + [Served(sub, req, step(init, req).1)]
  {
    StartResets(s, sub, init, step);
  }

  // ---------------------------------------------------------------- whole runs

  function Empty<B, R, A>(): State<B, R, A> { State([], map[], map[], {}, []) }

  predicate IsRun<B, R, A>(s: State<B, R, A>, acts: seq<Action<R>>, init: B, step: (B, R) -> (B, A))
    decreases |acts|
  {
    acts != [] ==>
      Enabled(s, acts[0]) && Orderly(s, acts[0]) && IsRun(Apply(s, acts[0], init, step), acts[1..], init, step)
  }

  function End<B, R, A>(s: State<B, R, A>, acts: seq<Action<R>>, init: B, step: (B, R) -> (B, A)): State<B, R, A>
    requires IsRun(s, acts, init, step)
    decreases |acts|
  {
    if acts == [] then s else End(Apply(s, acts[0], init, step), acts[1..], init, step)
  }

  lemma {:induction false} SeenGrows<B(!new), R(!new), A(!new)>(s: State<B, R, A>, acts: seq<Action<R>>, init: B, step: (B, R) -> (B, A))
    requires IsRun(s, acts, init, step)
    ensures s.seen <= End(s, acts, init, step).seen
    decreases |acts|
  {
    if acts != [] {
      SeenGrows(Apply(s, acts[0], init, step), acts[1..], init, step);
    }
  }

  lemma {:induction false} RunKeeps<B(!new), R(!new), A(!new)>(s: State<B, R, A>, acts: seq<Action<R>>, init: B, step: (B, R) -> (B, A))
    requires Linked(s) && Isolated(s, init, step) && IsRun(s, acts, init, step)
    requires |End(s, acts, init, step).seen| <= CLEAR_ABOVE + 1
    ensures Isolated(End(s, acts, init, step), init, step)
    decreases |acts|
  {
    hide Linked, Isolated;
    if acts != [] {
      var t := Apply(s, acts[0], init, step);
      SeenGrows(t, acts[1..], init, step);
      SubsetSize(t.seen, End(s, acts, init, step).seen);
      StepKeeps(s, acts[0], init, step);
      RunKeeps(t, acts[1..], init, step);
    }
  }

  /** Submission isolation: with at most 101 distinct submissions, each started before anything else is asked of
      it, the answers a submission gets - under any interleaving of look-ups, creations and locked steps - are
      those of its own requests, in lock order, on a fresh book of its own. */
  lemma SubmissionsIsolated<B(!new), R(!new), A(!new)>(acts: seq<Action<R>>, init: B, step: (B, R) -> (B, A), sub: Submission)
    requires IsRun(Empty<B, R, A>(), acts, init, step)
    requires |End(Empty<B, R, A>(), acts, init, step).seen| <= 101
    ensures var s := End(Empty<B, R, A>(), acts, init, step);
            AnswersOf(s.served, sub) == AloneAnswers(RequestsOf(s.served, sub), init, step)
  {
    var s := Empty<B, R, A>();
    assert Isolated(s, init, step);
    RunKeeps(s, acts, init, step);
    assert IsolatedFor(End(s, acts, init, step), sub, init, step);
  }

  // ---------------------------------------------------------------- one submission too many

  /** A name of length `i + 1`. */
  function Name(i: nat): Submission { seq(i + 1, _ => 'a') }

  lemma NameFits(i: nat)
    ensures |Name(i)| == i + 1 && !Blank(Name(i))
  {
    assert Name(i)[0] == 'a' && !White('a');
  }

  ghost predicate Reaches<B(!new), R(!new), A(!new)>(acts: seq<Action<R>>, s: State<B, R, A>, init: B, step: (B, R) -> (B, A)) {
    IsRun(Empty<B, R, A>(), acts, init, step) && End(Empty<B, R, A>(), acts, init, step) == s
  }

  lemma {:induction false} OneMore<B(!new), R(!new), A(!new)>(s: State<B, R, A>, acts: seq<Action<R>>, a: Action<R>, init: B, step: (B, R) -> (B, A))
    requires IsRun(s, acts, init, step)
    requires Enabled(End(s, acts, init, step), a) && Orderly(End(s, acts, init, step), a)
    ensures IsRun(s, acts + [a], init, step)
    ensures End(s, acts + [a], init, step) == Apply(End(s, acts, init, step), a, init, step)
    decreases |acts|
  {
    if acts == [] {
      assert ([a])[1..] == [];
      assert acts + [a] == [a];
    } else {
      assert (acts + [a])[0] == acts[0] && (acts + [a])[1..] == acts[1..] + [a];
      OneMore(Apply(s, acts[0], init, step), acts[1..], a, init, step);
    }
  }

  lemma Then<B(!new), R(!new), A(!new)>(acts0: seq<Action<R>>, s: State<B, R, A>, a: Action<R>, init: B, step: (B, R) -> (B, A))
    returns (acts: seq<Action<R>>, t: State<B, R, A>)
    requires Reaches(acts0, s, init, step) && Enabled(s, a) && Orderly(s, a)
    ensures acts == acts0 + [a] && t == Apply(s, a, init, step) && Reaches(acts, t, init, step)
  {
    OneMore(Empty<B, R, A>(), acts0, a, init, step);
    acts, t := acts0 + [a], Apply(s, a, init, step);
  }

  /** Nothing but starts: `n` submissions, a book each. */
  ghost predicate Full<B(!new), R(!new), A(!new)>(s: State<B, R, A>, n: nat, init: B) {
    && s.calls == map[] && s.served == []
    && |s.books| == n && (forall i | 0 <= i < n :: s.books[i] == init)
    && (forall i | 0 <= i < n :: Name(i) in s.directory && s.directory[Name(i)] == i)
    && s.seen == s.directory.Keys && |s.directory| == n
    && (forall x | x in s.seen :: |x| <= n)
  }

  lemma {:induction false} FillDirectory<B(!new), R(!new), A(!new)>(n: nat, init: B, step: (B, R) -> (B, A))
    returns (acts: seq<Action<R>>, s: State<B, R, A>)
    requires n <= CLEAR_ABOVE + 1
    ensures Reaches(acts, s, init, step) && Full(s, n, init)
  {
    if n == 0 {
      acts, s := [], Empty();
    } else {
      hide Reaches;
      acts, s := FillDirectory(n - 1, init, step);
      var t := s;
      NameFits(n - 1);
      acts, s := Then(acts, s, Start(Name(n - 1)), init, step);
      assert s.directory == t.directory[Name(n - 1) := n - 1];
      assert s.directory.Keys == t.directory.Keys + {Name(n - 1)};
    }
  }

  /** The bound is exact.  For any engine that can tell whether one request came before another, 102 submissions are
      one too many: the last start throws every other book out, and a submission is answered from a fresh book in
      the middle of its run. */
  lemma IsolationBoundExact<B(!new), R(!new), A(!new)>(first: R, second: R, init: B, step: (B, R) -> (B, A))
    returns (acts: seq<Action<R>>, s: State<B, R, A>)
    requires step(step(init, first).0, second).1 != step(init, second).1
    ensures Reaches(acts, s, init, step) && |s.seen| == 102
    ensures RequestsOf(s.served, Name(0)) == [first, second]
    ensures AnswersOf(s.served, Name(0)) != AloneAnswers([first, second], init, step)
  {
    hide Reaches;
    var e := Served(Name(0), first, step(init, first).1);
    var e' := Served(Name(0), second, step(init, second).1);
    acts, s := FillDirectory(CLEAR_ABOVE + 1, init, step);
    acts, s := ServeFirst(acts, s, first, init, step);
    NameFits(CLEAR_ABOVE + 1);
    acts, s := Then(acts, s, Start(Name(CLEAR_ABOVE + 1)), init, step);
    assert Name(0) != Name(CLEAR_ABOVE + 1);
    assert Name(0) !in s.directory;
    assert |s.seen| == CLEAR_ABOVE + 2;
    acts, s := ServeAgain(acts, s, second, init, step);
    assert s.served == [e] + [e'];
    ServedSnoc([e], e', Name(0));
    ServedSnoc([], e, Name(0));
    assert [] + [e] == [e];
    AloneSnoc([first], second, init, step);
    AloneSnoc([], first, init, step);
    assert [] + [first] == [first] && [first] + [second] == [first, second];
    assert AloneAnswers([first] + [second], init, step)[1] == step(step(init, first).0, second).1;
  }

  /** The shadow engine is such an engine: a sell that rests, and a buy that meets it. */
  lemma BookIsolationBound() returns (acts: seq<Action<Lob.Request>>, s: State<Lob.Book, Lob.Request, seq<Lob.Trade>>)
    ensures Reaches(acts, s, Lob.EMPTY, BookStep) && |s.seen| == 102
    ensures AnswersOf(s.served, Name(0)) != AloneAnswers(RequestsOf(s.served, Name(0)), Lob.EMPTY, BookStep)
  {
    var sell := Lob.Place(Lob.Order(1, 100, 5, Lob.Sell, false));
    var buy := Lob.Place(Lob.Order(2, 100, 5, Lob.Buy, false));
    var b := Lob.Book([], [Lob.Rest(1, 100, 5)]);
    assert BookStep(Lob.EMPTY, sell).0 == b;
    assert BookStep(b, buy).1 == [Lob.Trade(1, 2, 100, 5)];
    assert BookStep(Lob.EMPTY, buy).1 == [];
    acts, s := IsolationBoundExact(sell, buy, Lob.EMPTY, BookStep);
  }

  /** The reference book with the shadow engine's cap, as an engine. */
  function BookStep(b: Lob.Book, r: Lob.Request): (Lob.Book, seq<Lob.Trade>) {
    var out := Lob.Step(b, r, Shadow.MAX_TRADES_PER_MATCH);
    (out.book, out.trades)
  }

  /** One request of the first submission, answered from its own book. */
  lemma ServeFirst<B(!new), R(!new), A(!new)>(acts0: seq<Action<R>>, s0: State<B, R, A>, req: R, init: B, step: (B, R) -> (B, A))
    returns (acts: seq<Action<R>>, s: State<B, R, A>)
    requires Reaches(acts0, s0, init, step) && Full(s0, CLEAR_ABOVE + 1, init)
    ensures Reaches(acts, s, init, step)
    ensures s.directory == s0.directory && s.seen == s0.seen && s.calls == map[]
    ensures s.served == [Served(Name(0), req, step(init, req).1)]
  {
    hide Reaches;
    acts, s := Then(acts0, s0, Begin(0, Name(0), req), init, step);
    acts, s := Then(acts, s, Lookup(0), init, step);
    acts, s := Then(acts, s, Serve(0), init, step);
    assert s.calls == map[];
  }

  /** A request of a submission the directory has forgotten, answered from a fresh book. */
  lemma ServeAgain<B(!new), R(!new), A(!new)>(acts0: seq<Action<R>>, s0: State<B, R, A>, req: R, init: B, step: (B, R) -> (B, A))
    returns (acts: seq<Action<R>>, s: State<B, R, A>)
    requires Reaches(acts0, s0, init, step) && s0.calls == map[] && Name(0) in s0.seen && Name(0) !in s0.directory
    ensures Reaches(acts, s, init, step) && s.seen == s0.seen
    ensures s.served == s0.served + [Served(Name(0), req, step(init, req).1)]
  {
    hide Reaches;
    acts, s := Then(acts0, s0, Begin(0, Name(0), req), init, step);
    acts, s := Then(acts, s, Lookup(0), init, step);
    acts, s := Then(acts, s, Create(0), init, step);
    acts, s := Then(acts, s, Serve(0), init, step);
  }
}
