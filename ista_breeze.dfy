/**
 * The product scraper for the IstaBreeze wind generators: for each product
 * page it walks the children of the specifications table, keeping the
 * current section name, flattens each section body into label/value pairs,
 * joins the result with fixed metadata and appends the serialised record and
 * a `,\n` separator to the output file.
 *
 * Fetching and parsing the page is replaced by the table's children, given
 * in document order; the JSON serialiser is the parameter `ser`.
 */
module IstaBreeze {
  import opened Wrappers

  /**
   * An immediate child of the specifications table: a `thead` (the text of
   * its first cell), a `tbody` (the text of all its cells, in order), or
   * anything else.
   */
  datatype Child = Head(text: string) | Body(cells: seq<string>) | Other

  /** One section of the specifications: label to value. */
  type Section = map<string, string>

  /** The `data` dictionary: keys MANUFACTURER, MODEL, PRICE and SPECIFICATIONS. */
  datatype Record = Record(manufacturer: string, model: string, price: nat, specifications: map<string, Section>)

  /** A `tbody` with an odd number of cells: `lista[i+1]` raises IndexError. */
  datatype TableError = OddCellCount

  const Manufacturer: string := "IstaBreeze"

  const UrlList: seq<string> := [
    "https://www.istabreeze.com/online/Windgenerator/i-300-12v-Windgenerator-iSTA-BREEZE",
    "https://www.istabreeze.com/online/Windgenerator/L-500-24V-Windgenerator-iSTA-BREEZE-Land-Edition",
    "https://www.istabreeze.com/online/Windgenerator/i-700-24V-Windgenerator-iSTA-BREEZE",
    "https://www.istabreeze.com/online/Windgenerator/i-1000-24V-Windgenerator-iSTA-BREEZE",
    "https://www.istabreeze.com/online/Windgenerator/i-1500-48V-Windgenerator-iSTA-BREEZE",
    "https://www.istabreeze.com/online/Windgenerator/i-2000-48V-Windgenerator-iSTA-BREEZE"]

  const Models: seq<string> := ["i-300 12V", "L-500 24V", "i-700 24V", "i-1000 24V", "i-1500 48V", "i-2000 48V"]

  const Prices: seq<nat> := [189, 229, 369, 459, 539, 619]

  /** Every product page has its model name and its price. */
  lemma CatalogueAligned()
    ensures |Models| == |UrlList| && |Prices| == |UrlList|
  {
  }

  // ---------------------------------------------------------------------
  // Flattening one `tbody`

  /**
   * The section a `tbody` with an even number of cells produces: the pairs
   * (cells[0], cells[1]), (cells[2], cells[3]), ... stored left to right.
   */
  function PairMap(cells: seq<string>): Section
    requires |cells| % 2 == 0
    decreases |cells|
  {
    if cells == [] then map[]
    else PairMap(cells[..|cells| - 2])[cells[|cells| - 2] := cells[|cells| - 1]]
  }

  /** The labels of a section are exactly the cells at even positions. */
  lemma {:induction false} PairMapKeys(cells: seq<string>)
    requires |cells| % 2 == 0
    ensures forall l :: l in PairMap(cells) <==> exists i :: 0 <= i < |cells| && i % 2 == 0 && cells[i] == l
    decreases |cells|
  {
    if cells != [] {
      var n := |cells|;
      var rest := cells[..n - 2];
      PairMapKeys(rest);
      forall l | l in PairMap(cells)
        ensures exists i :: 0 <= i < n && i % 2 == 0 && cells[i] == l
      {
        if l != cells[n - 2] {
          assert l in PairMap(rest);
          var i :| 0 <= i < n - 2 && i % 2 == 0 && rest[i] == l;
          assert cells[i] == l;
        }
      }
      forall l | exists i :: 0 <= i < n && i % 2 == 0 && cells[i] == l
        ensures l in PairMap(cells)
      {
        var i :| 0 <= i < n && i % 2 == 0 && cells[i] == l;
        if i < n - 2 {
          assert rest[i] == l;
        }
      }
    }
  }

  /**
   * Each label maps to the cell after its last occurrence: a repeated label
   * keeps its later value.
   */
  lemma {:induction false} PairMapLastWins(cells: seq<string>, i: nat)
    requires |cells| % 2 == 0 && i < |cells| && i % 2 == 0
    requires forall j :: i < j < |cells| && j % 2 == 0 ==> cells[j] != cells[i]
    ensures cells[i] in PairMap(cells) && PairMap(cells)[cells[i]] == cells[i + 1]
    decreases |cells|
  {
    var n := |cells|;
    if i < n - 2 {
      var rest := cells[..n - 2];
      assert rest[i] == cells[i] && rest[i + 1] == cells[i + 1];
      assert cells[n - 2] != cells[i];
      PairMapLastWins(rest, i);
    }
  }

  // ---------------------------------------------------------------------
  // Walking the table

  /** The loop's state: `tempkey` and `data['SPECIFICATIONS']`. */
  datatype TableState = TableState(key: string, specs: map<string, Section>)

  /** One child of the table: a head sets the key, a body stores its section under it. */
  function Visit(st: TableState, child: Child): Result<TableState, TableError>
  {
    match child
    case Head(text) => Success(st.(key := text))
    case Body(cells) =>
      if |cells| % 2 == 1 then Failure(OddCellCount)
      else Success(st.(specs := st.specs[st.key := PairMap(cells)]))
    case Other => Success(st)
  }

  /** The state after visiting the children in order, from key "" and no sections. */
  function Walk(children: seq<Child>): Result<TableState, TableError>
  {
    if children == [] then Success(TableState("", map[]))
    else
      match Walk(children[..|children| - 1])
      case Failure(e) => Failure(e)
      case Success(st) => Visit(st, children[|children| - 1])
  }

  // An independent description of what the walk computes.

  /** The text of the last head among `children`, or "" when there is none. */
  function LastHead(children: seq<Child>): string
  {
    if children == [] then ""
    else if children[|children| - 1].Head? then children[|children| - 1].text
    else LastHead(children[..|children| - 1])
  }

  /** The section name in force at position i: the last head before it. */
  function SectionKey(children: seq<Child>, i: nat): string
    requires i <= |children|
  {
    LastHead(children[..i])
  }

  /** Every body has an even number of cells. */
  predicate WellFormed(children: seq<Child>)
  {
    forall i :: 0 <= i < |children| && children[i].Body? ==> |children[i].cells| % 2 == 0
  }

  /** The body at i is the last one filed under its section name. */
  predicate LastInSection(children: seq<Child>, i: nat)
    requires i < |children|
  {
    forall j :: i < j < |children| && children[j].Body? ==> SectionKey(children, j) != SectionKey(children, i)
  }

  /** Section names in force inside a prefix are the same in the whole table. */
  lemma SectionKeyPrefix(children: seq<Child>, n: nat)
    requires n <= |children|
    ensures forall i :: 0 <= i <= n ==> SectionKey(children, i) == SectionKey(children[..n], i)
  {
    forall i | 0 <= i <= n
      ensures SectionKey(children, i) == SectionKey(children[..n], i)
    {
      assert children[..i] == children[..n][..i];
    }
  }

  /** The walk fails exactly when some body has an odd number of cells. */
  lemma {:induction false} WalkSucceeds(children: seq<Child>)
    ensures Walk(children).Success? <==> WellFormed(children)
  {
    if children != [] {
      var n := |children|;
      var prefix, child := children[..n - 1], children[n - 1];
      WalkSucceeds(prefix);
      assert WellFormed(children) <==> WellFormed(prefix) && (child.Body? ==> |child.cells| % 2 == 0) by {
        assert forall i :: 0 <= i < n - 1 ==> children[i] == prefix[i];
      }
    }
  }

  /** After a successful walk the key is the text of the last head, "" if none. */
  lemma {:induction false} WalkKey(children: seq<Child>)
    requires Walk(children).Success?
    ensures Walk(children).value.key == LastHead(children)
  {
    if children != [] {
      WalkKey(children[..|children| - 1]);
    }
  }

  /** The section names of a successful walk are the names in force at its bodies. */
  lemma {:induction false} WalkSections(children: seq<Child>)
    requires Walk(children).Success?
    ensures forall k :: k in Walk(children).value.specs <==>
              exists i :: 0 <= i < |children| && children[i].Body? && SectionKey(children, i) == k
  {
    if children != [] {
      var n := |children|;
      var prefix, child := children[..n - 1], children[n - 1];
      WalkSections(prefix);
      WalkKey(prefix);
      SectionKeyPrefix(children, n - 1);
      assert prefix[..n - 1] == prefix;
      var specs := Walk(children).value.specs;
      forall k | k in specs
        ensures exists i :: 0 <= i < n && children[i].Body? && SectionKey(children, i) == k
      {
        if !(child.Body? && k == SectionKey(children, n - 1)) {
          var i :| 0 <= i < n - 1 && prefix[i].Body? && SectionKey(prefix, i) == k;
          assert children[i] == prefix[i];
        }
      }
      forall k | exists i :: 0 <= i < n && children[i].Body? && SectionKey(children, i) == k
        ensures k in specs
      {
        var i :| 0 <= i < n && children[i].Body? && SectionKey(children, i) == k;
        if i < n - 1 {
          assert prefix[i] == children[i];
        }
      }
    }
  }

  /**
   * After a successful walk each section name holds the pairs of the LAST
   * body filed under it: a later body replaces an earlier one, and no pair
   * leaks from one body into another.
   */
  lemma {:induction false} WalkLastBody(children: seq<Child>)
    requires WellFormed(children)
    ensures Walk(children).Success? &&
            forall i :: 0 <= i < |children| && children[i].Body? && LastInSection(children, i) ==>
              SectionKey(children, i) in Walk(children).value.specs &&
              Walk(children).value.specs[SectionKey(children, i)] == PairMap(children[i].cells)
  {
    WalkSucceeds(children);
    if children != [] {
      var n := |children|;
      var prefix, child := children[..n - 1], children[n - 1];
      WalkSucceeds(prefix);
      WalkLastBody(prefix);
      WalkKey(prefix);
      SectionKeyPrefix(children, n - 1);
      var st := Walk(prefix).value;
      var specs := Walk(children).value.specs;
      assert Walk(children) == Visit(st, child);
      assert st.key == SectionKey(children, n - 1) by {
        assert children[..n - 1] == prefix;
      }
      forall i | 0 <= i < n && children[i].Body? && LastInSection(children, i)
        ensures SectionKey(children, i) in specs && specs[SectionKey(children, i)] == PairMap(children[i].cells)
      {
        if i < n - 1 {
          assert prefix[i] == children[i];
          assert LastInSection(prefix, i);
          assert child.Body? ==> SectionKey(children, n - 1) != SectionKey(children, i);
        }
      }
    }
  }

  /**
   * The walk fails exactly when some body has an odd number of cells. When
   * it succeeds, the key is the last head; the section names are the names
   * in force at the bodies; and each name holds the pairs of the last body
   * filed under it and nothing else.
   */
  lemma WalkSpec(children: seq<Child>)
    ensures Walk(children).Success? <==> WellFormed(children)
    ensures Walk(children).Success? ==> Walk(children).value.key == LastHead(children)
    ensures Walk(children).Success? ==>
              forall k :: k in Walk(children).value.specs <==>
                exists i :: 0 <= i < |children| && children[i].Body? && SectionKey(children, i) == k
    ensures Walk(children).Success? ==>
              forall i :: 0 <= i < |children| && children[i].Body? && LastInSection(children, i) ==>
                SectionKey(children, i) in Walk(children).value.specs &&
                Walk(children).value.specs[SectionKey(children, i)] == PairMap(children[i].cells)
  {
    WalkSucceeds(children);
    if Walk(children).Success? {
      WalkKey(children);
      WalkSections(children);
      WalkLastBody(children);
    }
  }

  /**
   * A table with a "Rotor" head, a body of two pairs and a "Generator" head
   * files both pairs under "Rotor"; a body before any head is filed under "".
   */
  lemma RotorExample(l1: string, v1: string, l2: string, v2: string, cells: seq<string>)
    requires l1 != l2 && |cells| % 2 == 0
    ensures Walk([Head("Rotor"), Body([l1, v1, l2, v2]), Head("Generator")])
            == Success(TableState("Generator", map["Rotor" := map[l1 := v1, l2 := v2]]))
    ensures Walk([Body(cells)]) == Success(TableState("", map["" := PairMap(cells)]))
  {
    var t := [Head("Rotor"), Body([l1, v1, l2, v2]), Head("Generator")];
    assert [Head("Rotor")][..0] == [];
    assert t[..2][..1] == [Head("Rotor")];
    assert t[..2] == [Head("Rotor"), Body([l1, v1, l2, v2])];
    assert [l1, v1, l2, v2][..2] == [l1, v1];
    assert [l1, v1][..0] == [];
    assert PairMap([l1, v1]) == map[l1 := v1];
    assert PairMap([l1, v1, l2, v2]) == map[l1 := v1, l2 := v2];
    assert Walk(t[..2]) == Success(TableState("Rotor", map["Rotor" := map[l1 := v1, l2 := v2]]));
    assert [Body(cells)][..0] == [];
  }

  /** A malformed prefix makes the whole walk fail. */
  lemma WalkFailurePersists(children: seq<Child>, n: nat)
    requires n <= |children| && Walk(children[..n]).Failure?
    ensures Walk(children).Failure?
  {
    WalkSucceeds(children[..n]);
    WalkSucceeds(children);
    var i :| 0 <= i < n && children[..n][i].Body? && |children[..n][i].cells| % 2 == 1;
    assert children[i] == children[..n][i];
  }

  /** Children that are neither head nor body change nothing. */
  lemma {:induction false} WalkSkipsOther(before: seq<Child>, after: seq<Child>)
    ensures Walk(before + [Other] + after) == Walk(before + after)
    decreases |after|
  {
    if after == [] {
      assert (before + [Other] + after)[..|before|] == before;
      assert before + after == before;
    } else {
      var last := after[|after| - 1];
      var init := after[..|after| - 1];
      WalkSkipsOther(before, init);
      assert (before + [Other] + after)[..|before| + |after|] == before + [Other] + init;
      assert (before + after)[..|before| + |after| - 1] == before + init;
    }
  }

  // ---------------------------------------------------------------------
  // One product

  /** The record of product `index` whose table has the given children. */
  function RecordOf(index: nat, children: seq<Child>): (r: Result<Record, TableError>)
    requires index < |UrlList|
    ensures r.Success? <==> WellFormed(children)
    ensures r.Success? ==>
              r.value.manufacturer == "IstaBreeze" && r.value.model == Models[index] &&
              r.value.price == Prices[index] &&
              Walk(children).Success? && r.value.specifications == Walk(children).value.specs
  {
    WalkSucceeds(children);
    match Walk(children)
    case Success(st) => Success(Record(Manufacturer, Models[index], Prices[index], st.specs))
    case Failure(e) => Failure(e)
  }

  /**
   * The body of the per-product loop: fixed metadata, then the walk over
   * the table's children with `tempkey`, the scratch section that is copied
   * and cleared after every body, and the inner loop stepping by two.
   */
  method BuildRecord(index: nat, children: seq<Child>) returns (r: Result<Record, TableError>)
    requires index < |UrlList|
    ensures r == RecordOf(index, children)
  {
    var specs: map<string, Section> := map[];
    var scratch: Section := map[];
    var key := "";
    var n := 0;
    while n < |children|
      invariant n <= |children|
      invariant Walk(children[..n]) == Success(TableState(key, specs))
      invariant scratch == map[]
    {
      assert children[..n + 1][..n] == children[..n];
      match children[n] {
        case Head(text) =>
          key := text;
        case Body(cells) =>
          var i := 0;
          while i < |cells|
            invariant i <= |cells| && i % 2 == 0
            invariant scratch == PairMap(cells[..i])
          {
            if i + 1 >= |cells| {
              assert |cells| % 2 == 1;
              assert Walk(children[..n + 1]).Failure?;
              WalkFailurePersists(children, n + 1);
              assert Walk(children).error == OddCellCount;
              return Failure(OddCellCount);
            }
            assert cells[..i + 2][..i] == cells[..i];
            scratch := scratch[cells[i] := cells[i + 1]];
            i := i + 2;
          }
          assert cells[..i] == cells;
          specs := specs[key := scratch];
          scratch := map[];
        case Other =>
      }
      n := n + 1;
    }
    assert children[..n] == children;
    r := Success(Record(Manufacturer, Models[index], Prices[index], specs));
  }

  // ---------------------------------------------------------------------
  // The output file

  /** What appending `records` writes: each serialised record followed by `,\n`. */
  function Appended(records: seq<Record>, ser: Record -> string): string
  {
    if records == [] then "" else ser(records[0]) + ",\n" + Appended(records[1..], ser)
  }

  /** Appending one more record extends the text and leaves what was there. */
  lemma {:induction false} AppendedSnoc(records: seq<Record>, r: Record, ser: Record -> string)
    ensures Appended(records + [r], ser) == Appended(records, ser) + ser(r) + ",\n"
  {
    if records == [] {
      assert [r][1..] == [];
    } else {
      assert (records + [r])[1..] == records[1..] + [r];
      AppendedSnoc(records[1..], r, ser);
    }
  }

  /** Two records appended: each followed by its separator, in order. */
  lemma AppendedTwo(r1: Record, r2: Record, ser: Record -> string)
    ensures Appended([r1, r2], ser) == ser(r1) + ",\n" + ser(r2) + ",\n"
  {
    AppendedSnoc([r1], r2, ser);
    assert [r1] + [r2] == [r1, r2];
  }

  /** The output file, opened for appending. */
  class OutputFile {
    var content: string

    constructor (initial: string)
      ensures content == initial
    {
      content := initial;
    }

    method Write(s: string)
      modifies this
      ensures content == old(content) + s
    {
      content := content + s;
    }
  }

  /** `json.dump(data, outfile, ...)` followed by `outfile.write(",\n")`. */
  method AppendRecord(file: OutputFile, record: Record, ser: Record -> string)
    modifies file
    ensures file.content == old(file.content) + ser(record) + ",\n"
  {
    file.Write(ser(record));
    file.Write(",\n");
  }

  // ---------------------------------------------------------------------
  // The whole run

  /** The records written and, if the run stopped, the product it stopped at. */
  datatype RunResult = RunResult(records: seq<Record>, stoppedAt: Option<nat>)

  /** The first n products in order; the first malformed table ends the run. */
  function Run(pages: seq<seq<Child>>, n: nat): RunResult
    requires n <= |pages| <= |UrlList|
  {
    if n == 0 then RunResult([], None)
    else
      var prev := Run(pages, n - 1);
      if prev.stoppedAt.Some? then prev
      else
        match RecordOf(n - 1, pages[n - 1])
        case Success(record) => RunResult(prev.records + [record], None)
        case Failure(_) => RunResult(prev.records, Some(n - 1))
  }

  /**
   * The run writes the records of the products before the first malformed
   * table (all of them when there is none), in order, each with the fixed
   * metadata of its position.
   */
  lemma {:induction false} RunSpec(pages: seq<seq<Child>>, n: nat)
    requires n <= |pages| <= |UrlList|
    ensures Run(pages, n).stoppedAt.Some? ==>
              Run(pages, n).stoppedAt.value < n && !WellFormed(pages[Run(pages, n).stoppedAt.value])
    ensures |Run(pages, n).records| == if Run(pages, n).stoppedAt.Some? then Run(pages, n).stoppedAt.value else n
    ensures forall i :: 0 <= i < |Run(pages, n).records| ==>
              WellFormed(pages[i]) && RecordOf(i, pages[i]) == Success(Run(pages, n).records[i])
  {
    if n > 0 {
      RunSpec(pages, n - 1);
      var prev := Run(pages, n - 1);
      if prev.stoppedAt.None? {
        match RecordOf(n - 1, pages[n - 1])
        case Success(record) =>
          assert Run(pages, n).records == prev.records + [record];
        case Failure(_) =>
          assert Run(pages, n).stoppedAt == Some(n - 1);
      }
    }
  }

  /** One more product: its record is appended, or the run stops at it. */
  lemma RunNext(pages: seq<seq<Child>>, n: nat)
    requires n < |pages| <= |UrlList| && Run(pages, n).stoppedAt.None?
    ensures RecordOf(n, pages[n]).Success? ==>
              Run(pages, n + 1) == RunResult(Run(pages, n).records + [RecordOf(n, pages[n]).value], None)
    ensures RecordOf(n, pages[n]).Failure? ==> Run(pages, n + 1) == RunResult(Run(pages, n).records, Some(n))
  {
  }

  /** Once stopped, the run stays stopped with the same records. */
  lemma {:induction false} RunStops(pages: seq<seq<Child>>, m: nat, n: nat)
    requires m <= n <= |pages| <= |UrlList|
    requires Run(pages, m).stoppedAt.Some?
    ensures Run(pages, n) == Run(pages, m)
    decreases n
  {
    if n > m {
      RunStops(pages, m, n - 1);
    }
  }

  /**
   * The module-level loop over `url_list`: build each record and append it
   * with its separator; the first malformed table stops the run. The file
   * only grows: its old content stays as it was, in front.
   */
  method ScrapeAll(file: OutputFile, pages: seq<seq<Child>>, ser: Record -> string) returns (stoppedAt: Option<nat>)
    requires |pages| == |UrlList|
    modifies file
    ensures stoppedAt == Run(pages, |pages|).stoppedAt
    ensures file.content == old(file.content) + Appended(Run(pages, |pages|).records, ser)
  {
    ghost var written: seq<Record> := [];
    for index := 0 to |pages|
      invariant Run(pages, index) == RunResult(written, None)
      invariant file.content == old(file.content) + Appended(written, ser)
    {
      var r := BuildRecord(index, pages[index]);
      RunNext(pages, index);
      match r {
        case Failure(_) =>
          RunStops(pages, index + 1, |pages|);
          return Some(index);
        case Success(record) =>
          AppendRecord(file, record, ser);
          AppendedSnoc(written, record, ser);
          written := written + [record];
      }
    }
    stoppedAt := None;
  }
}
