/**
 The source index of a trace: for each (file, line), the blocks it occurs in and how often it occurs
 (trackexec/reader.py, src_index).
 */
module SourceIndex {
  import opened TraceFormat
  import opened TraceModel
  import opened RecorderModel

  type Key = (Word, Word)

  datatype Item = Item(blocks: set<nat>, count: nat)

  type Index = map<Key, Item>

  function KeyOf(l: Location): Key {
    (l.point.fileId, l.point.lineno)
  }

  // the index is a dictionary with a default
  function Get(idx: Index, key: Key): Item {
    if key in idx then idx[key] else Item({}, 0)
  }

  function Keys(data: seq<Location>): set<Key> {
    set l | l in data :: KeyOf(l)
  }

  function CountIn(data: seq<Location>, key: Key): (n: nat)
    ensures n > 0 <==> key in Keys(data)
  {
    if data == [] then 0 else
    CountSplit(data);
    CountIn(DropLast(data), key) + if KeyOf(Last(data)) == key then 1 else 0
  }

  lemma CountSplit(data: seq<Location>)
    requires data != []
    ensures Keys(data) == Keys(DropLast(data)) + {KeyOf(Last(data))}
  {
    assert data == DropLast(data) + [Last(data)];
  }

  function Total(trace: seq<seq<Location>>, key: Key): nat {
    if trace == [] then 0 else Total(DropLast(trace), key) + CountIn(Last(trace), key)
  }

  function BlocksWith(trace: seq<seq<Location>>, key: Key): set<nat> {
    set b: nat | b < |trace| && key in Keys(trace[b])
  }

  /** The index says of every key which blocks contain it, and how many times in all it occurs. */
  ghost predicate Indexes(idx: Index, trace: seq<seq<Location>>) {
    forall key :: Get(idx, key) == Item(BlocksWith(trace, key), Total(trace, key))
  }

  function Updated(item: Item, id: nat, count: nat): Item {
    Item(item.blocks + {id}, item.count + count)
  }

  /** Counts each distinct location of a block into the index. */
  method AddBlock(idx: Index, data: seq<Location>, id: nat) returns (idx': Index)
    ensures forall key :: Get(idx', key) ==
              if key in Keys(data) then Updated(Get(idx, key), id, CountIn(data, key)) else Get(idx, key)
  {
    idx' := idx;
    var todo := Keys(data);
    while todo != {}
      invariant todo <= Keys(data)
      invariant forall key :: Get(idx', key) ==
                  if key in Keys(data) - todo then Updated(Get(idx, key), id, CountIn(data, key)) else Get(idx, key)
      decreases |todo|
    {
      var key :| key in todo;
      idx' := idx'[key := Updated(Get(idx', key), id, CountIn(data, key))];
      todo := todo - {key};
    }
  }

  /** Indexing one more block extends the index of the blocks before it. */
  lemma AddBlockExtends(idx: Index, idx': Index, trace: seq<seq<Location>>, data: seq<Location>)
    requires Indexes(idx, trace)
    requires forall key :: Get(idx', key) ==
               if key in Keys(data) then Updated(Get(idx, key), |trace|, CountIn(data, key)) else Get(idx, key)
    ensures Indexes(idx', trace + [data])
  {
    forall key
      ensures Get(idx', key) == Item(BlocksWith(trace + [data], key), Total(trace + [data], key))
    {
      KeyInOneMoreBlock(trace, data, key);
    }
  }

  lemma KeyInOneMoreBlock(trace: seq<seq<Location>>, data: seq<Location>, key: Key)
    ensures BlocksWith(trace + [data], key) == BlocksWith(trace, key) + if key in Keys(data) then {|trace|} else {}
    ensures Total(trace + [data], key) == Total(trace, key) + CountIn(data, key)
  {
    var trace' := trace + [data];
    assert DropLast(trace') == trace;
    assert trace'[|trace|] == data;
  }

  /** Where nothing is indexed yet, the empty index is exact: an index built at once starts there. */
  lemma EmptyIndex()
    ensures Indexes(map[], [])
  {
  }

  predicate SameKeys(a: seq<Location>, b: seq<Location>) {
    |a| == |b| && forall k :: 0 <= k < |a| ==> KeyOf(a[k]) == KeyOf(b[k])
  }

  lemma {:induction false} SameCount(a: seq<Location>, b: seq<Location>, key: Key)
    requires SameKeys(a, b)
    ensures CountIn(a, key) == CountIn(b, key)
  {
    if a != [] {
      SameCount(DropLast(a), DropLast(b), key);
    }
  }

  lemma {:induction false} SameTotal(a: seq<seq<Location>>, b: seq<seq<Location>>, key: Key)
    requires |a| == |b| && forall k :: 0 <= k < |a| ==> SameKeys(a[k], b[k])
    ensures Total(a, key) == Total(b, key)
  {
    if a != [] {
      SameTotal(DropLast(a), DropLast(b), key);
      SameCount(Last(a), Last(b), key);
    }
  }

  /** The index depends on the keys of the locations only, not on their times. */
  lemma SameIndex(idx: Index, a: seq<seq<Location>>, b: seq<seq<Location>>)
    requires |a| == |b| && (forall k :: 0 <= k < |a| ==> SameKeys(a[k], b[k])) && Indexes(idx, a)
    ensures Indexes(idx, b)
  {
    forall key
      ensures Get(idx, key) == Item(BlocksWith(b, key), Total(b, key))
    {
      SameTotal(a, b, key);
      assert BlocksWith(a, key) == BlocksWith(b, key) by {
        forall k: nat | k < |a|
          ensures key in Keys(a[k]) <==> key in Keys(b[k])
        {
          SameCount(a[k], b[k], key);
        }
      }
    }
  }
}
