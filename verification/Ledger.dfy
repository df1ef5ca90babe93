/** The bond ledger: balances per worker id beside the history of applied deltas, in wrapping 64-bit
    arithmetic, and the file it lives in between jobs. */
module Bonds {
  import opened Words
  import opened Bits
  import opened JobFormat

  type i64 = n: int | -0x8000_0000_0000_0000 <= n < 0x8000_0000_0000_0000

  type Delta = (Str, i64)

  datatype Entry = Entry(jobId: Str, decision: Str, deltas: seq<Delta>)

  function ToI64(x: int): i64 { Signed(Wrap(x)) }

  /** What a list of deltas moves for one id, without any bound on the sum. */
  function Moved(deltas: seq<Delta>, id: Str): int {
    if deltas == [] then 0
    else
      var n := |deltas| - 1;
      Moved(deltas[..n], id) + if deltas[n].0 == id then deltas[n].1 else 0
  }

  function Total(history: seq<Entry>, id: Str): int {
    if history == [] then 0
    else
      var n := |history| - 1;
      Total(history[..n], id) + Moved(history[n].deltas, id)
  }

  predicate Names(deltas: seq<Delta>, id: Str) {
    exists i :: 0 <= i < |deltas| && deltas[i].0 == id
  }

  predicate Mentions(history: seq<Entry>, id: Str) {
    exists i :: 0 <= i < |history| && Names(history[i].deltas, id)
  }

  /** Wrapping after every addition equals wrapping once at the end. */
  lemma WrapsOnce(x: int, d: int)
    ensures ToI64(ToI64(x) + d) == ToI64(x + d)
  {
    var k := x / TWO64;
    var w: int := Wrap(x);
    assert x == k * TWO64 + w;
    var s: int := ToI64(x);
    assert s == w || s == w - TWO64;
    var c := if s == w then k else k + 1;
    assert x + d == c * TWO64 + (s + d);
    ModUnique(x + d, TWO64, c + (s + d) / TWO64, (s + d) % TWO64);
  }

  /** The balances kept for a prefix of the current entry on top of a finished history. */
  ghost predicate Balanced(balances: map<Str, i64>, history: seq<Entry>, deltas: seq<Delta>) {
    && (forall id :: id in balances <==> Mentions(history, id) || Names(deltas, id))
    && (forall id :: id in balances ==> balances[id] == ToI64(Total(history, id) + Moved(deltas, id)))
  }

  lemma {:induction false} NamesStep(deltas: seq<Delta>, d: Delta, id: Str)
    ensures Names(deltas + [d], id) <==> Names(deltas, id) || d.0 == id
    ensures Moved(deltas + [d], id) == Moved(deltas, id) + if d.0 == id then d.1 else 0
  {
    assert (deltas + [d])[..|deltas|] == deltas;
    if Names(deltas, id) {
      var i :| 0 <= i < |deltas| && deltas[i].0 == id;
      assert (deltas + [d])[i].0 == id;
    }
    assert (deltas + [d])[|deltas|] == d;
  }

  lemma {:induction false} MentionsStep(history: seq<Entry>, e: Entry, id: Str)
    ensures Mentions(history + [e], id) <==> Mentions(history, id) || Names(e.deltas, id)
    ensures Total(history + [e], id) == Total(history, id) + Moved(e.deltas, id)
  {
    hide Names, Moved;
    assert (history + [e])[..|history|] == history;
    if Mentions(history, id) {
      var i :| 0 <= i < |history| && Names(history[i].deltas, id);
      assert Names((history + [e])[i].deltas, id);
    }
    assert (history + [e])[|history|] == e;
  }

  lemma {:induction false} UnnamedMovesNothing(deltas: seq<Delta>, id: Str)
    requires !Names(deltas, id)
    ensures Moved(deltas, id) == 0
  {
    if deltas != [] {
      var n := |deltas| - 1;
      NamesStep(deltas[..n], deltas[n], id);
      assert deltas == deltas[..n] + [deltas[n]];
      UnnamedMovesNothing(deltas[..n], id);
    }
  }

  lemma {:induction false} UnmentionedHasNothing(history: seq<Entry>, id: Str)
    requires !Mentions(history, id)
    ensures Total(history, id) == 0
  {
    if history != [] {
      var n := |history| - 1;
      MentionsStep(history[..n], history[n], id);
      assert history == history[..n] + [history[n]];
      UnmentionedHasNothing(history[..n], id);
      UnnamedMovesNothing(history[n].deltas, id);
    }
  }

  lemma CreditKeepsBalance(balances: map<Str, i64>, history: seq<Entry>, deltas: seq<Delta>, d: Delta)
    requires Balanced(balances, history, deltas)
    ensures Balanced(balances[d.0 := ToI64((if d.0 in balances then balances[d.0] else 0) + d.1)], history,
                     deltas + [d])
  {
    hide Names, Mentions, Moved, Total, ToI64;
    var was := if d.0 in balances then balances[d.0] else 0;
    assert was == ToI64(Total(history, d.0) + Moved(deltas, d.0)) by {
      if d.0 !in balances {
        UnmentionedHasNothing(history, d.0);
        UnnamedMovesNothing(deltas, d.0);
        assert ToI64(0) == 0 by { ZeroFits(); }
      }
    }
    WrapsOnce(Total(history, d.0) + Moved(deltas, d.0), d.1);
    forall id
      ensures Names(deltas + [d], id) <==> Names(deltas, id) || d.0 == id
      ensures Moved(deltas + [d], id) == Moved(deltas, id) + if d.0 == id then d.1 else 0
    {
      NamesStep(deltas, d, id);
    }
  }

  lemma ZeroFits()
    ensures ToI64(0) == 0
  {
  }

  lemma EntryClosesBalance(balances: map<Str, i64>, history: seq<Entry>, e: Entry)
    requires Balanced(balances, history, e.deltas)
    ensures Balanced(balances, history + [e], [])
  {
    hide Names, Mentions, Moved, Total, ToI64;
    forall id
      ensures Mentions(history + [e], id) <==> Mentions(history, id) || Names(e.deltas, id)
      ensures Total(history + [e], id) == Total(history, id) + Moved(e.deltas, id)
    {
      MentionsStep(history, e, id);
    }
    NothingNamed();
  }

  lemma NothingNamed()
    ensures forall id :: !Names([], id) && Moved([], id) == 0
    ensures forall id :: !Mentions([], id)
  {
  }

  /** A ledger as a value, which is also what its file holds. */
  datatype Book = Book(balances: map<Str, i64>, history: seq<Entry>)

  function EmptyBook(): Book { Book(map[], []) }

  /** Exactly the ids in the history have a balance, and it is the wrapped sum of their deltas. */
  ghost predicate BookValid(book: Book) {
    Balanced(book.balances, book.history, [])
  }

  function Credited(balances: map<Str, i64>, deltas: seq<Delta>): map<Str, i64> {
    if deltas == [] then balances
    else
      var n := |deltas| - 1;
      var before := Credited(balances, deltas[..n]);
      var was: int := if deltas[n].0 in before then before[deltas[n].0] else 0;
      before[deltas[n].0 := ToI64(was + deltas[n].1)]
  }

  function Applied(book: Book, e: Entry): Book {
    Book(Credited(book.balances, e.deltas), book.history + [e])
  }

  lemma {:induction false} CreditedIsBalanced(balances: map<Str, i64>, history: seq<Entry>, deltas: seq<Delta>)
    requires Balanced(balances, history, [])
    ensures Balanced(Credited(balances, deltas), history, deltas)
  {
    hide Balanced;
    if deltas != [] {
      var n := |deltas| - 1;
      CreditedIsBalanced(balances, history, deltas[..n]);
      CreditKeepsBalance(Credited(balances, deltas[..n]), history, deltas[..n], deltas[n]);
      assert deltas == deltas[..n] + [deltas[n]];
    }
  }

  /** Applying an entry keeps a book valid. */
  lemma AppliedIsValid(book: Book, e: Entry)
    requires BookValid(book)
    ensures BookValid(Applied(book, e))
  {
    hide Balanced, Credited;
    CreditedIsBalanced(book.balances, book.history, e.deltas);
    EntryClosesBalance(Credited(book.balances, e.deltas), book.history, e);
  }

  class Ledger {
    var balances: map<Str, i64>
    var history: seq<Entry>

    function Contents(): Book
      reads this
    {
      Book(balances, history)
    }

    constructor ()
      ensures Contents() == EmptyBook() && BookValid(Contents())
    {
      balances, history := map[], [];
      new;
      NothingNamed();
    }

    /** A ledger read back from its file. */
    constructor Loaded(book: Book)
      ensures Contents() == book
    {
      balances, history := book.balances, book.history;
    }

    method Apply(jobId: Str, decision: Str, deltas: seq<Delta>)
      modifies this
      ensures Contents() == Applied(old(Contents()), Entry(jobId, decision, deltas))
      ensures old(BookValid(Contents())) ==> BookValid(Contents())
    {
      hide Balanced;
      for i := 0 to |deltas|
        invariant history == old(history)
        invariant balances == Credited(old(balances), deltas[..i])
      {
        var id, delta := deltas[i].0, deltas[i].1;
        var was: int := if id in balances then balances[id] else 0;
        assert deltas[..i + 1][..i] == deltas[..i];
        balances := balances[id := ToI64(was + delta)];
      }
      assert deltas[..|deltas|] == deltas;
      history := history + [Entry(jobId, decision, deltas)];
      if old(BookValid(Contents())) {
        AppliedIsValid(old(Contents()), Entry(jobId, decision, deltas));
      }
    }
  }

  // ---------------------------------------------------------------- the ledger file

  /** The file between jobs: absent, holding a ledger, or holding what a write cut short has left. */
  datatype File = Missing | Stored(book: Book) | Torn

  /** A save: all of it, none of it, or only a part. */
  datatype Saving = Written | Untouched | CutShort

  /** How the file system answers one load and the save after it. */
  datatype FileIO = FileIO(readable: bool, saving: Saving)

  /** `Ledger::load` with the fallback of its caller: an absent file is an empty ledger, and so is one that
      cannot be read or parsed. */
  function Opened(file: File, io: FileIO): Book {
    if file.Stored? && io.readable then file.book else EmptyBook()
  }

  /** `finish_ledger`: load, apply, save. */
  function AfterJob(file: File, io: FileIO, e: Entry): File {
    match io.saving
    case Written => Stored(Applied(Opened(file, io), e))
    case Untouched => file
    case CutShort => Torn
  }

  /** The file after a series of jobs. */
  function Persisted(file: File, ios: seq<FileIO>, es: seq<Entry>): File
    requires |ios| == |es|
  {
    if es == [] then file
    else
      var n := |es| - 1;
      AfterJob(Persisted(file, ios[..n], es[..n]), ios[n], es[n])
  }

  function History(file: File): seq<Entry> {
    if file.Stored? then file.book.history else []
  }

  /** The save succeeds, and the load does unless there is nothing to lose. */
  predicate Kept(file: File, io: FileIO) {
    io.saving == Written && (History(file) != [] ==> io.readable)
  }

  /** No job of the series loses anything. */
  predicate AllKept(file: File, ios: seq<FileIO>, es: seq<Entry>)
    requires |ios| == |es|
  {
    forall i :: 0 <= i < |es| ==> Kept(Persisted(file, ios[..i], es[..i]), ios[i])
  }

  lemma JobAddsOneIffKept(file: File, io: FileIO, e: Entry)
    ensures |History(AfterJob(file, io, e))| <= |History(file)| + 1
    ensures |History(AfterJob(file, io, e))| == |History(file)| + 1 <==> Kept(file, io)
    ensures Kept(file, io) ==> History(AfterJob(file, io, e)) == History(file) + [e]
  {
    hide Credited;
  }

  lemma {:induction false} AllKeptStep(file: File, ios: seq<FileIO>, es: seq<Entry>)
    requires |ios| == |es| > 0
    ensures var n := |es| - 1;
            AllKept(file, ios, es) <==>
            AllKept(file, ios[..n], es[..n]) && Kept(Persisted(file, ios[..n], es[..n]), ios[n])
  {
    hide Persisted, Kept;
    var n := |es| - 1;
    forall i | 0 <= i < n
      ensures ios[..n][..i] == ios[..i] && es[..n][..i] == es[..i] && ios[..n][i] == ios[i]
    {
    }
  }

  lemma NothingToKeep(file: File)
    ensures AllKept(file, [], [])
  {
  }

  /** Over any series of jobs the file holds the history it started with followed by every entry, if and only
      if every save succeeded and no load failed on a ledger with entries; otherwise entries are lost for good. */
  lemma {:induction false} HistoryKeptIff(file: File, ios: seq<FileIO>, es: seq<Entry>)
    requires |ios| == |es|
    ensures History(Persisted(file, ios, es)) == History(file) + es <==> AllKept(file, ios, es)
    ensures |History(Persisted(file, ios, es))| <= |History(file)| + |es|
    ensures !AllKept(file, ios, es) ==> |History(Persisted(file, ios, es))| < |History(file)| + |es|
  {
    hide Kept, History, AfterJob, AllKept;
    if es == [] {
      assert History(file) + es == History(file);
      NothingToKeep(file);
    } else {
      var n := |es| - 1;
      HistoryKeptIff(file, ios[..n], es[..n]);
      AllKeptStep(file, ios, es);
      JobAddsOneIffKept(Persisted(file, ios[..n], es[..n]), ios[n], es[n]);
      assert es == es[..n] + [es[n]];
      assert History(file) + es == (History(file) + es[..n]) + [es[n]];
    }
  }

  /** The file, if it holds a ledger, holds a valid one. */
  ghost predicate FileValid(file: File) {
    file.Stored? ==> BookValid(file.book)
  }

  lemma {:induction false} PersistedIsValid(file: File, ios: seq<FileIO>, es: seq<Entry>)
    requires |ios| == |es| && FileValid(file)
    ensures FileValid(Persisted(file, ios, es))
  {
    hide Applied, BookValid;
    if es != [] {
      var n := |es| - 1;
      PersistedIsValid(file, ios[..n], es[..n]);
      EmptyIsValid();
      AppliedIsValid(Opened(Persisted(file, ios[..n], es[..n]), ios[n]), es[n]);
    }
  }

  lemma EmptyIsValid()
    ensures BookValid(EmptyBook())
  {
    NothingNamed();
  }

  lemma {:induction false} TotalAppends(h: seq<Entry>, es: seq<Entry>, id: Str)
    ensures Total(h + es, id) == Total(h, id) + Total(es, id)
  {
    if es == [] {
      assert h + es == h;
    } else {
      var n := |es| - 1;
      TotalAppends(h, es[..n], id);
      assert (h + es)[..|h| + n] == h + es[..n];
    }
  }

  /** What the file says an id owns. */
  function BalanceOf(file: File, id: Str): i64 {
    if file.Stored? && id in file.book.balances then file.book.balances[id] else 0
  }

  lemma {:induction false} BalanceIsTotal(file: File, id: Str)
    requires FileValid(file)
    ensures BalanceOf(file, id) == ToI64(Total(History(file), id))
  {
    hide Total, Moved, ToI64, Names, Mentions;
    NothingNamed();
    ZeroFits();
    if !Mentions(History(file), id) {
      UnmentionedHasNothing(History(file), id);
    }
  }

  /** When nothing is lost, what an id owns is the wrapped sum over the earlier history and the series. */
  lemma {:induction false} KeptBalances(file: File, ios: seq<FileIO>, es: seq<Entry>, id: Str)
    requires |ios| == |es| && FileValid(file) && AllKept(file, ios, es)
    ensures BalanceOf(Persisted(file, ios, es), id) == ToI64(Total(History(file), id) + Total(es, id))
  {
    hide Persisted, AllKept, Total, ToI64, FileValid, BalanceOf, History;
    HistoryKeptIff(file, ios, es);
    PersistedIsValid(file, ios, es);
    BalanceIsTotal(Persisted(file, ios, es), id);
    TotalAppends(History(file), es, id);
  }

  lemma ShiftedByNothing(x: int, y: int)
    ensures ToI64(x + y) == ToI64(y) <==> ToI64(x) == 0
  {
    WrapsOnce(x, y);
    WrapsOnce(y, ToI64(x));
    assert ToI64(x) + y == y + ToI64(x);
    SmallShift(ToI64(y), ToI64(x));
  }

  lemma SmallShift(t: i64, d: i64)
    ensures ToI64(t as int + d as int) == t <==> d == 0
  {
    var s: int := t as int + d as int;
    if s < -0x8000_0000_0000_0000 {
      ModUnique(s, TWO64, -1, s + TWO64);
    } else if s >= 0x8000_0000_0000_0000 {
      ModUnique(s, TWO64, 0, s);
    } else {
      Unwrapped(s);
    }
  }

  /** A failed load leaves an id's balance right exactly if it owned nothing before, and a failed save
      exactly if the job moved nothing for it. */
  lemma {:induction false} FailureHarmlessIff(file: File, e: Entry, id: Str)
    requires FileValid(file)
    ensures BalanceOf(AfterJob(file, FileIO(false, Written), e), id) == ToI64(Total(History(file) + [e], id)) <==>
            BalanceOf(file, id) == 0
    ensures BalanceOf(AfterJob(file, FileIO(true, Untouched), e), id) == ToI64(Total(History(file) + [e], id)) <==>
            ToI64(Moved(e.deltas, id)) == 0
  {
    hide Total, Moved, ToI64, BookValid, BalanceOf;
    EmptyIsValid();
    AppliedIsValid(EmptyBook(), e);
    BalanceIsTotal(file, id);
    BalanceIsTotal(AfterJob(file, FileIO(false, Written), e), id);
    MentionsStep([], e, id);
    MentionsStep(History(file), e, id);
    assert [] + [e] == [e] && EmptyBook().history + [e] == [e];
    NothingTotal(id);
    ShiftedByNothing(Total(History(file), id), Moved(e.deltas, id));
    ShiftedByNothing(Moved(e.deltas, id), Total(History(file), id));
  }

  lemma {:induction false} NothingTotal(id: Str)
    ensures Total([], id) == 0
  {
  }

  /** A worker convicted once and then rewarded: after a failed load the conviction is gone. */
  lemma {:induction false} ResetForgetsConviction(id: Str)
    ensures var e := Entry([], [], [(id, -100)]);
            var e' := Entry([], [], [(id, 10)]);
            var file := Stored(Applied(EmptyBook(), e));
            var file' := AfterJob(file, FileIO(false, Written), e');
            && FileValid(file) && file.book.balances[id] == -100
            && file'.Stored? && id in file'.book.balances && file'.book.balances[id] == 10
            && Total(History(file) + [e'], id) == -90
  {
    var (d, d') := ([(id, -100)], [(id, 10)]);
    var e := Entry([], [], d);
    EmptyIsValid();
    AppliedIsValid(EmptyBook(), e);
    assert d[..0] == [] && d'[..0] == [];
    Unwrapped(-100);
    Unwrapped(10);
    assert Moved(d, id) == -100 && Moved(d', id) == 10;
    assert [e][..0] == [];
    TotalAppends([e], [Entry([], [], d')], id);
    assert Total([e], id) == -100;
    assert [Entry([], [], d')][..0] == [];
    assert [] + [e] == [e];
  }

  // ---------------------------------------------------------------- no overflow

  ghost predicate DistinctNames(deltas: seq<Delta>) {
    forall i, j :: 0 <= i < j < |deltas| ==> deltas[i].0 != deltas[j].0
  }

  ghost predicate Small(deltas: seq<Delta>, most: int) {
    forall i :: 0 <= i < |deltas| ==> -most <= deltas[i].1 <= most
  }

  lemma {:induction false} MovedIsSmall(deltas: seq<Delta>, id: Str, most: int)
    requires DistinctNames(deltas) && Small(deltas, most) && most >= 0
    ensures -most <= Moved(deltas, id) <= most
  {
    if deltas != [] {
      var n := |deltas| - 1;
      if deltas[n].0 == id {
        UnnamedMovesNothing(deltas[..n], id);
      } else {
        MovedIsSmall(deltas[..n], id, most);
      }
    }
  }

  /** With each id at most once per job and deltas of at most `most` units, a sum over the history
      grows by at most `most` per job. */
  lemma {:induction false} TotalIsBounded(history: seq<Entry>, id: Str, most: int)
    requires forall i :: 0 <= i < |history| ==> DistinctNames(history[i].deltas) && Small(history[i].deltas, most)
    requires most >= 0
    ensures -(most * |history|) <= Total(history, id) <= most * |history|
  {
    if history != [] {
      hide DistinctNames, Small;
      var n := |history| - 1;
      TotalIsBounded(history[..n], id, most);
      MovedIsSmall(history[n].deltas, id, most);
      OneMore(most, n);
    }
  }

  lemma OneMore(m: int, n: int)
    ensures m * (n + 1) == m * n + m
  {
  }

  /** A wrapped sum is the sum exactly when that fits 64 bits. */
  lemma ExactIffFits(x: int)
    ensures ToI64(x) == x <==> -0x8000_0000_0000_0000 <= x < 0x8000_0000_0000_0000
  {
    if -0x8000_0000_0000_0000 <= x < 0x8000_0000_0000_0000 {
      Unwrapped(x);
    }
  }

  lemma Unwrapped(x: int)
    requires -0x8000_0000_0000_0000 <= x < 0x8000_0000_0000_0000
    ensures ToI64(x) == x
  {
    ModUnique(x, TWO64, if x < 0 then -1 else 0, if x < 0 then x + TWO64 else x);
  }
}
