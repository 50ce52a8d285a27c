/** Response files: each `@name` replaced by the arguments of the file, up to a depth. */
module CmdExpand {
  import opened CmdSpec
  import opened CmdSplit
  import opened CmdJoin

  const MAX_DEPTH: nat := 8

  datatype Loaded = Text(text: string) | Unread

  /** How a response file is found: its name, to its text once decoded, or nothing when it
      cannot be read or its text cannot be decoded. */
  type Load = string -> Loaded

  datatype Inclusion = Included(arguments: seq<string>) | AsWritten

  function FileReading(q: Quoting): Reading { if q.WindowsQuoting? then WindowsFile else PosixFile }

  /** What stands for `argument`, met inside `depth` response files. */
  function Include(argument: string, depth: nat, q: Quoting, load: Load): (i: Inclusion)
    ensures i.Included? ==> argument != [] && argument[0] == '@' && depth < MAX_DEPTH
  {
    if argument == [] || argument[0] != '@' || depth >= MAX_DEPTH then AsWritten
    else
      var read := load(argument[1..]);
      if read.Unread? then AsWritten else Included(SplitAll(read.text, FileReading(q), false))
  }

  /** The arguments with their response files read, files in files to MAX_DEPTH. */
  function Expand(arguments: seq<string>, depth: nat, q: Quoting, load: Load): seq<string>
    decreases MAX_DEPTH - depth, |arguments|
  {
    if arguments == [] then []
    else
      var i := Include(arguments[0], depth, q, load);
      (if i.Included? then Expand(i.arguments, depth + 1, q, load) else [arguments[0]])
      + Expand(arguments[1..], depth, q, load)
  }

  /** How many moves the expansion takes, each file's opening and closing among them. */
  function Moves(arguments: seq<string>, depth: nat, q: Quoting, load: Load): nat
    decreases MAX_DEPTH - depth, |arguments|
  {
    if arguments == [] then 0
    else
      var i := Include(arguments[0], depth, q, load);
      (if i.Included? then 2 + Moves(i.arguments, depth + 1, q, load) else 1)
      + Moves(arguments[1..], depth, q, load)
  }

  // ---------- levels: the command's arguments, then those of each open file ----------

  type Levels = seq<seq<string>>

  /** Every level but the innermost is at the argument naming the file the next one reads. */
  predicate Nested(levels: Levels) {
    0 < |levels| <= MAX_DEPTH + 1 && forall i :: 0 <= i < |levels| - 1 ==> levels[i] != []
  }

  function Innermost(levels: Levels): seq<string>
    requires levels != []
  {
    levels[|levels| - 1]
  }

  /** Past the argument at hand. */
  function Past(levels: Levels): (r: Levels)
    requires Nested(levels) && Innermost(levels) != []
    ensures Nested(r) && |r| == |levels|
  {
    levels[|levels| - 1 := Innermost(levels)[1..]]
  }

  /** The innermost file closed, and past the argument that named it. */
  function Close(levels: Levels): (r: Levels)
    requires Nested(levels) && |levels| > 1
    ensures Nested(r) && |r| == |levels| - 1
  {
    Past(levels[..|levels| - 1])
  }

  /** What is left to give. */
  function Pending(levels: Levels, q: Quoting, load: Load): seq<string>
    requires Nested(levels)
    decreases |levels|
  {
    Expand(Innermost(levels), |levels| - 1, q, load) + if |levels| == 1 then [] else Pending(Close(levels), q, load)
  }

  function MovesLeft(levels: Levels, q: Quoting, load: Load): nat
    requires Nested(levels)
    decreases |levels|
  {
    Moves(Innermost(levels), |levels| - 1, q, load) + if |levels| == 1 then 0 else 1 + MovesLeft(Close(levels), q, load)
  }

  /** A level that has ended gives nothing more, and one move closes it. */
  lemma Closing(levels: Levels, q: Quoting, load: Load)
    requires Nested(levels) && |levels| > 1 && Innermost(levels) == []
    ensures Pending(levels, q, load) == Pending(Close(levels), q, load)
    ensures MovesLeft(levels, q, load) == 1 + MovesLeft(Close(levels), q, load)
  {
  }

  lemma Finished(levels: Levels, q: Quoting, load: Load)
    requires Nested(levels) && |levels| == 1 && Innermost(levels) == []
    ensures Pending(levels, q, load) == []
  {
  }

  /** Opening a file keeps what is left to give. */
  lemma Opening(levels: Levels, inner: seq<string>, q: Quoting, load: Load)
    requires Nested(levels) && Innermost(levels) != []
    requires Include(Innermost(levels)[0], |levels| - 1, q, load) == Included(inner)
    ensures Nested(levels + [inner])
    ensures Pending(levels + [inner], q, load) == Pending(levels, q, load)
    ensures MovesLeft(levels + [inner], q, load) < MovesLeft(levels, q, load)
  {
    hide Include, Expand, Moves, Pending, MovesLeft, Close;
    var more := levels + [inner];
    CloseOpened(levels, inner);
    PendingIs(more, q, load);
    PastUnfolds(levels, q, load);
  }

  lemma CloseOpened(levels: Levels, inner: seq<string>)
    requires Nested(levels) && Innermost(levels) != [] && |levels| <= MAX_DEPTH
    ensures Nested(levels + [inner]) && Close(levels + [inner]) == Past(levels)
  {
    var more := levels + [inner];
    assert more[..|more| - 1] == levels;
  }

  lemma PendingIs(levels: Levels, q: Quoting, load: Load)
    requires Nested(levels)
    ensures Pending(levels, q, load) ==
            Expand(Innermost(levels), |levels| - 1, q, load)
            + if |levels| == 1 then [] else Pending(Close(levels), q, load)
    ensures MovesLeft(levels, q, load) ==
            Moves(Innermost(levels), |levels| - 1, q, load)
            + if |levels| == 1 then 0 else 1 + MovesLeft(Close(levels), q, load)
  {
    hide Expand, Moves, Close;
  }

  /** What the first argument gives, met inside `depth` files. */
  function First(argument: string, depth: nat, q: Quoting, load: Load): seq<string> {
    var i := Include(argument, depth, q, load);
    if i.Included? then Expand(i.arguments, depth + 1, q, load) else [argument]
  }

  function FirstMoves(argument: string, depth: nat, q: Quoting, load: Load): nat {
    var i := Include(argument, depth, q, load);
    if i.Included? then 2 + Moves(i.arguments, depth + 1, q, load) else 1
  }

  lemma IncludeIs(argument: string, depth: nat, q: Quoting, load: Load)
    requires depth <= MAX_DEPTH
    ensures argument == [] || argument[0] != '@' || depth == MAX_DEPTH ==>
              Include(argument, depth, q, load) == AsWritten
    ensures argument != [] && argument[0] == '@' && depth < MAX_DEPTH ==>
              Include(argument, depth, q, load) ==
              var read := load(argument[1..]);
              if read.Unread? then AsWritten else Included(SplitAll(read.text, FileReading(q), false))
  {
    hide SplitAll;
  }

  lemma ExpandIs(arguments: seq<string>, depth: nat, q: Quoting, load: Load)
    requires arguments != []
    ensures Expand(arguments, depth, q, load) ==
            First(arguments[0], depth, q, load) + Expand(arguments[1..], depth, q, load)
    ensures Moves(arguments, depth, q, load) ==
            FirstMoves(arguments[0], depth, q, load) + Moves(arguments[1..], depth, q, load)
  {
    hide Include;
  }

  lemma PastKeepsOuter(levels: Levels)
    requires Nested(levels) && Innermost(levels) != [] && |levels| > 1
    ensures Close(Past(levels)) == Close(levels)
  {
    var k := |levels| - 1;
    assert Past(levels)[..k] == levels[..k];
  }

  lemma PastUnfolds(levels: Levels, q: Quoting, load: Load)
    requires Nested(levels) && Innermost(levels) != []
    ensures Pending(levels, q, load) ==
            First(Innermost(levels)[0], |levels| - 1, q, load) + Pending(Past(levels), q, load)
    ensures MovesLeft(levels, q, load) ==
            FirstMoves(Innermost(levels)[0], |levels| - 1, q, load) + MovesLeft(Past(levels), q, load)
  {
    hide Include, Expand, Moves, Pending, MovesLeft, First, FirstMoves, Close;
    PendingIs(levels, q, load);
    PendingIs(Past(levels), q, load);
    ExpandIs(Innermost(levels), |levels| - 1, q, load);
    if |levels| > 1 { PastKeepsOuter(levels); }
  }

  /** An argument that stands as written is the next to give. */
  lemma Giving(levels: Levels, q: Quoting, load: Load)
    requires Nested(levels) && Innermost(levels) != []
    requires Include(Innermost(levels)[0], |levels| - 1, q, load) == AsWritten
    ensures Pending(levels, q, load) == [Innermost(levels)[0]] + Pending(Past(levels), q, load)
  {
    hide Include, Expand, Moves, Pending, MovesLeft, Past;
    PastUnfolds(levels, q, load);
  }

  // ---------- the iterator ----------

  class ExpandIterator {
    const arguments: seq<string>
    const quoting: Quoting
    const load: Load
    var index: nat
    var files: seq<SplitIterator>
    var argument: string
    var done: bool
    ghost var levels: Levels

    ghost predicate Ready()
      reads this, files
    {
      && index <= |arguments| && |levels| == |files| + 1 && Nested(levels)
      && (forall i, j :: 0 <= i < j < |files| ==> files[i] != files[j])
      && levels[0] == arguments[index..]
      && forall i :: 0 <= i < |files| ==> Reads(files[i], levels[i + 1])
    }

    ghost predicate Reads(file: SplitIterator, remaining: seq<string>)
      reads file
    {
      file.Ready() && file.Remaining() == remaining
    }

    /** The argument at hand and all after it. */
    ghost function Remaining(): seq<string>
      reads this, files
      requires Ready()
    {
      Pending(levels, quoting, load)
    }

    /** The argument at hand is one to give, or all are given. */
    ghost predicate Settled()
      reads this, files
      requires Ready()
    {
      if done then Remaining() == []
      else
        && Innermost(levels) != [] && argument == Innermost(levels)[0]
        && Remaining() == [argument] + Pending(Past(levels), quoting, load)
    }

    constructor (arguments: seq<string>, quoting: Quoting, load: Load)
      ensures this.arguments == arguments && this.quoting == quoting && this.load == load
      ensures Ready() && Settled() && fresh(files)
      ensures Remaining() == Expand(arguments, 0, quoting, load)
    {
      hide Expand, Include, Past, Close, Pending;
      this.arguments, this.quoting, this.load := arguments, quoting, load;
      index, files, argument, done, levels := 0, [], [], false, [arguments];
      new;
      PendingIs(levels, quoting, load);
      Settle();
    }

    /** Drops the head of the innermost level. */
    method Step()
      requires Ready() && Innermost(levels) != []
      modifies this`index, this`levels, files
      ensures Ready() && files == old(files)
      ensures levels == old(Past(levels))
    {
      hide SplitAll;
      levels := Past(levels);
      if files == [] {
        index := index + 1;
      } else {
        var file := files[|files| - 1];
        file.Advance();
      }
    }

    method CloseFile()
      requires Ready() && files != [] && files[|files| - 1].done
      modifies this`index, this`levels, this`files, files
      ensures Ready() && files == old(files[..|files| - 1])
      ensures levels == old(Close(levels))
    {
      files := files[..|files| - 1];
      levels := levels[..|levels| - 1];
      Step();
    }

    method OpenFile(text: string)
      requires Ready() && Innermost(levels) != [] && |files| < MAX_DEPTH
      modifies this`levels, this`files
      ensures Ready() && |files| == old(|files|) + 1 && files[..|files| - 1] == old(files) && fresh(files[|files| - 1])
      ensures levels == old(levels) + [SplitAll(text, FileReading(quoting), false)]
    {
      hide SplitAll;
      var file := new SplitIterator(text, FileReading(quoting));
      files := files + [file];
      levels := levels + [file.Remaining()];
    }

    lemma AtHand()
      requires Ready()
      ensures files != [] ==> (files[|files| - 1].done <==> Innermost(levels) == [])
      ensures files != [] && !files[|files| - 1].done ==> files[|files| - 1].Current() == Innermost(levels)[0]
      ensures files == [] ==> Innermost(levels) == arguments[index..]
    {
      hide SplitAll;
      if files != [] { assert Reads(files[|files| - 1], levels[|files|]); }
    }

    /** One turn of the loop: closes a file, opens one, or settles. */
    method Turn() returns (settled: bool)
      requires Ready() && !done
      modifies this, files
      ensures Ready() && forall i :: 0 <= i < |files| ==> files[i] in old(files) || fresh(files[i])
      ensures Remaining() == old(Remaining())
      ensures settled ==> Settled()
      ensures !settled ==> !done && MovesLeft(levels, quoting, load) < old(MovesLeft(levels, quoting, load))
    {
      hide Expand, Moves, Pending, MovesLeft, Past, Close, SplitAll, Include, Reads, Innermost;
      AtHand();
      if files != [] && files[|files| - 1].done {
        Closing(levels, quoting, load);
        CloseFile();
        return false;
      }
      if files == [] && index == |arguments| {
        Finished(levels, quoting, load);
        done := true;
        return true;
      }
      argument := if files == [] then arguments[index] else files[|files| - 1].Current();
      IncludeIs(argument, |files|, quoting, load);
      if argument == [] || argument[0] != '@' || |files| == MAX_DEPTH {
        Giving(levels, quoting, load);
        return true;
      }
      var read := load(argument[1..]);
      if read.Unread? {
        Giving(levels, quoting, load);
        return true;
      }
      Opening(levels, SplitAll(read.text, FileReading(quoting), false), quoting, load);
      OpenFile(read.text);
      return false;
    }

    /** Takes turns until the next argument to give is the innermost level's head, or none is left. */
    method Settle()
      requires Ready() && !done
      modifies this, files
      ensures Ready() && Settled()
      ensures forall i :: 0 <= i < |files| ==> files[i] in old(files) || fresh(files[i])
      ensures Remaining() == old(Remaining())
    {
      hide Pending, MovesLeft, Reads, Past, Innermost, Nested;
      var settled := false;
      while !settled
        invariant Ready() && (if settled then Settled() else !done)
        invariant forall i :: 0 <= i < |files| ==> files[i] in old(files) || fresh(files[i])
        invariant Remaining() == old(Remaining())
        decreases !settled, MovesLeft(levels, quoting, load)
      {
        settled := Turn();
      }
    }

    /** Moves to the next argument to give, or past the last. */
    method Advance()
      requires Ready() && Settled() && !done
      modifies this, files
      ensures Ready() && Settled()
      ensures forall i :: 0 <= i < |files| ==> files[i] in old(files) || fresh(files[i])
      ensures Remaining() == old(Remaining())[1..]
    {
      hide Pending, Past;
      Step();
      Settle();
    }
  }

  /** Iterating over a whole command gives the recursive expansion, whatever the files
      include: themselves and one another too. */
  method ExpandAll(arguments: seq<string>, q: Quoting, load: Load) returns (all: seq<string>)
    ensures all == Expand(arguments, 0, q, load)
  {
    hide Expand, Pending, Past, Nested, Innermost;
    var it := new ExpandIterator(arguments, q, load);
    all := [];
    ghost var left := it.Remaining();
    while !it.done
      invariant fresh(it) && fresh(it.files) && it.Ready() && it.Settled()
      invariant left == it.Remaining() && all + left == Expand(arguments, 0, q, load)
      decreases |left|
    {
      ConcatShifts(all, it.argument, left[1..]);
      all := all + [it.argument];
      it.Advance();
      left := left[1..];
    }
  }
}
