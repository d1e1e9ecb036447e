/**
 * The directory tree of a ROM's file system, read from a parsed File Name
 * Table: the root (id 0xf000, named "/") holds the entries of sub-table 0,
 * and every directory entry holds the entries of the sub-table its id
 * selects. The source recurses without bound, so a table whose directories
 * refer back to each other never finishes; here a fuel argument bounds the
 * depth and running out of it is the `TooDeep` error.
 */
module FileTree {
  import opened Common
  import opened Fnt

  /** The id of the root directory; directory ids start here. */
  const RootDirId: u16 := 0xf000

  /** The root's name, "/". */
  const RootName: seq<byte> := [0x2f]

  datatype File = File(id: u16, name: seq<byte>, children: seq<File>)

  /** Directories are the entries with an id of 0xf000 or more. */
  predicate IsDir(f: File) {
    f.id >= RootDirId
  }

  /**
   * Failures: an error of the sub-table iterator, a directory id whose
   * sub-table does not exist (an out-of-range index, a panic), or a nesting
   * deeper than the fuel allows.
   */
  datatype TreeError = Iteration(cause: FntError) | NoSubtable(index: nat) | TooDeep

  /** `parse_subtable`: the entries of sub-table `index`, each directory with its own entries. */
  function ParseSubtable(fnt: seq<Subtable>, index: nat, fuel: nat): Result<seq<File>, TreeError>
    decreases fuel, 0, 0
  {
    if fuel == 0 then Err(TooDeep)
    else if index >= |fnt| then Err(NoSubtable(index))
    else ParseEntries(fnt, Iterate(fnt[index]), fuel - 1)
  }

  /** The loop of `parse_subtable` from iterator state `it` on. */
  function ParseEntries(fnt: seq<Subtable>, it: Iter, fuel: nat): Result<seq<File>, TreeError>
    decreases fuel, 1, |it.data|
  {
    match Next(it)
    case Err(e) => Err(Iteration(e))
    case Ok(None) => Ok([])
    case Ok(Some(Step(f, next))) =>
      var children :- if f.id >= RootDirId then ParseSubtable(fnt, f.id - RootDirId, fuel) else Ok([]);
      var rest :- ParseEntries(fnt, next, fuel);
      Ok([File(f.id, f.name, children)] + rest)
  }

  /** `File::parse`: the root directory with the entries of sub-table 0. */
  function Parse(fnt: seq<Subtable>, fuel: nat): (r: Result<File, TreeError>)
    ensures r.Ok? ==> r.value.id == RootDirId && r.value.name == RootName && IsDir(r.value)
    ensures r.Ok? <==> ParseSubtable(fnt, 0, fuel).Ok?
  {
    var children :- ParseSubtable(fnt, 0, fuel);
    Ok(File(RootDirId, RootName, children))
  }

  /** What the sub-table iterator reports for each parsed entry. */
  function Heads(files: seq<File>): (r: seq<FntFile>)
    ensures |r| == |files|
  {
    seq(|files|, i requires 0 <= i < |files| => FntFile(files[i].id, files[i].name))
  }

  /** A parsed loop lists the iterator's entries, in the iterator's order. */
  lemma {:induction false} EntriesOrder(fnt: seq<Subtable>, it: Iter, fuel: nat)
    requires ParseEntries(fnt, it, fuel).Ok?
    ensures Entries(it) == Ok(Heads(ParseEntries(fnt, it, fuel).value))
    decreases |it.data|
  {
    match Next(it)
    case Ok(None) =>
    case Ok(Some(Step(f, next))) =>
      EntriesOrder(fnt, next, fuel);
      var files := ParseEntries(fnt, it, fuel).value;
      assert files[1..] == ParseEntries(fnt, next, fuel).value;
      assert Heads(files) == [FntFile(f.id, f.name)] + Heads(files[1..]);
  }

  /** The root lists the entries of sub-table 0, in order. */
  lemma {:induction false} RootEntries(fnt: seq<Subtable>, fuel: nat)
    requires Parse(fnt, fuel).Ok?
    ensures |fnt| > 0 && Entries(Iterate(fnt[0])) == Ok(Heads(Parse(fnt, fuel).value.children))
  {
    EntriesOrder(fnt, Iterate(fnt[0]), fuel - 1);
  }

  /** Where an entry's children come from: a directory's from the sub-table its id selects, a file has none. */
  predicate ChildrenFrom(fnt: seq<Subtable>, f: File, fuel: nat) {
    if IsDir(f) then ParseSubtable(fnt, f.id - RootDirId, fuel) == Ok(f.children) else f.children == []
  }

  /** Each parsed entry's children come from the sub-table its directory id selects. */
  lemma {:induction false} ChildrenSource(fnt: seq<Subtable>, it: Iter, fuel: nat)
    requires ParseEntries(fnt, it, fuel).Ok?
    ensures var files := ParseEntries(fnt, it, fuel).value;
      forall i :: 0 <= i < |files| ==> ChildrenFrom(fnt, files[i], fuel)
    decreases |it.data|
  {
    match Next(it)
    case Ok(None) =>
    case Ok(Some(Step(f, next))) =>
      ChildrenSource(fnt, next, fuel);
      var files := ParseEntries(fnt, it, fuel).value;
      assert files[1..] == ParseEntries(fnt, next, fuel).value;
      assert ChildrenFrom(fnt, files[0], fuel);
      forall i | 1 <= i < |files| ensures ChildrenFrom(fnt, files[i], fuel) {
        assert files[i] == files[1..][i - 1];
      }
  }

  /** More fuel does not change a sub-table that already parses. */
  lemma {:induction false} FuelSubtable(fnt: seq<Subtable>, index: nat, fuel: nat)
    requires ParseSubtable(fnt, index, fuel).Ok?
    ensures ParseSubtable(fnt, index, fuel + 1) == ParseSubtable(fnt, index, fuel)
    decreases fuel, 0, 0
  {
    FuelEntries(fnt, Iterate(fnt[index]), fuel - 1);
  }

  /** More fuel does not change a loop that already parses. */
  lemma {:induction false} FuelEntries(fnt: seq<Subtable>, it: Iter, fuel: nat)
    requires ParseEntries(fnt, it, fuel).Ok?
    ensures ParseEntries(fnt, it, fuel + 1) == ParseEntries(fnt, it, fuel)
    decreases fuel, 1, |it.data|
  {
    match Next(it)
    case Ok(None) =>
    case Ok(Some(Step(f, next))) =>
      if f.id >= RootDirId {
        FuelSubtable(fnt, f.id - RootDirId, fuel);
      }
      FuelEntries(fnt, next, fuel);
  }

  /** A tree that parses keeps its shape with any larger fuel: the fuel only bounds the depth. */
  lemma {:induction false} FuelIrrelevant(fnt: seq<Subtable>, fuel: nat, more: nat)
    requires Parse(fnt, fuel).Ok? && fuel <= more
    ensures Parse(fnt, more) == Parse(fnt, fuel)
    decreases more - fuel
  {
    if fuel < more {
      FuelSubtable(fnt, 0, fuel);
      FuelIrrelevant(fnt, fuel + 1, more);
    }
  }

  /**
   * A root sub-table whose first entry names the root directory itself
   * never parses, whatever the fuel: the source recurses forever on it.
   */
  lemma {:induction false} SelfReferenceNeverParses(fnt: seq<Subtable>, name: seq<byte>, next: Iter, fuel: nat)
    requires |fnt| > 0 && Next(Iterate(fnt[0])) == Ok(Some(Step(FntFile(RootDirId, name), next)))
    ensures ParseSubtable(fnt, 0, fuel).Err?
  {
    if fuel > 0 {
      SelfReferenceNeverParses(fnt, name, next, fuel - 1);
    }
  }
}
