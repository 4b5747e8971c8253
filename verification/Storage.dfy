/** The in-memory database, its write batch and its sorted iterator (`storage/src/rocksdb_database.cpp`). */
module Storage {
  import opened Bytes
  import opened Results
  import opened Sorting

  type Data = map<ByteString, ByteString>

  datatype StorageError = Success | NotFound | AlreadyExists | InvalidArgument | IoError

  // ----- Write batches -----

  datatype Write = Put(key: ByteString, value: ByteString) | Erase(key: ByteString)

  function ApplyWrite(data: Data, w: Write): Data {
    match w
    case Put(k, v) => data[k := v]
    case Erase(k) => data - {k}
  }

  function ApplyBatch(data: Data, ws: seq<Write>): Data {
    if ws == [] then data else ApplyWrite(ApplyBatch(data, ws[..|ws| - 1]), ws[|ws| - 1])
  }

  function Lookup(data: Data, key: ByteString): Option<ByteString> {
    if key in data then Some(data[key]) else None
  }

  /** The last operation of the batch on a key. */
  function LastWrite(ws: seq<Write>, key: ByteString): Option<Write> {
    if ws == [] then None
    else if ws[|ws| - 1].key == key then Some(ws[|ws| - 1])
    else LastWrite(ws[..|ws| - 1], key)
  }

  function Decided(data: Data, w: Option<Write>, key: ByteString): Option<ByteString> {
    match w
    case None => Lookup(data, key)
    case Some(Put(_, v)) => Some(v)
    case Some(Erase(_)) => None
  }

  /** For each key the last operation of the batch decides; keys it does not mention keep their value. */
  lemma {:induction false} LastWriteDecides(data: Data, ws: seq<Write>, key: ByteString)
    ensures Lookup(ApplyBatch(data, ws), key) == Decided(data, LastWrite(ws, key), key)
  {
    if ws != [] && ws[|ws| - 1].key != key {
      LastWriteDecides(data, ws[..|ws| - 1], key);
    }
  }

  lemma SameLookups(a: Data, b: Data)
    requires forall k :: Lookup(a, k) == Lookup(b, k)
    ensures a == b
  {
    forall k
      ensures k in a <==> k in b
      ensures k in a ==> a[k] == b[k]
    {
      assert Lookup(a, k) == Lookup(b, k);
    }
  }

  /** Two batches that agree on every key's last operation have the same effect, whatever else they hold. */
  lemma BatchesAgree(data: Data, vs: seq<Write>, ws: seq<Write>)
    requires forall k :: LastWrite(vs, k) == LastWrite(ws, k)
    ensures ApplyBatch(data, vs) == ApplyBatch(data, ws)
  {
    forall k
      ensures Lookup(ApplyBatch(data, vs), k) == Lookup(ApplyBatch(data, ws), k)
    {
      LastWriteDecides(data, vs, k);
      LastWriteDecides(data, ws, k);
      assert LastWrite(vs, k) == LastWrite(ws, k);
    }
    SameLookups(ApplyBatch(data, vs), ApplyBatch(data, ws));
  }

  lemma {:induction false} ApplyBatchAppend(data: Data, vs: seq<Write>, ws: seq<Write>)
    ensures ApplyBatch(data, vs + ws) == ApplyBatch(ApplyBatch(data, vs), ws)
  {
    if ws == [] {
      assert vs + ws == vs;
    } else {
      ApplyBatchAppend(data, vs, ws[..|ws| - 1]);
      assert (vs + ws)[..|vs + ws| - 1] == vs + ws[..|ws| - 1];
    }
  }

  /** Writing a batch that undoes another one key by key restores the data: here, a put of the old
      value for each key that had one and an erase for each that had none. */
  lemma UndoBatchRestores(data: Data, ws: seq<Write>, undo: seq<Write>)
    requires forall k :: LastWrite(ws, k).Some? ==> LastWrite(undo, k).Some?
    requires forall k :: LastWrite(undo, k).Some? ==> Decided(map[], LastWrite(undo, k), k) == Lookup(data, k)
    ensures ApplyBatch(data, ws + undo) == data
  {
    ApplyBatchAppend(data, ws, undo);
    var after := ApplyBatch(ApplyBatch(data, ws), undo);
    forall k
      ensures Lookup(after, k) == Lookup(data, k)
    {
      LastWriteDecides(ApplyBatch(data, ws), undo, k);
      LastWriteDecides(data, ws, k);
      assert LastWrite(ws, k).Some? ==> LastWrite(undo, k).Some?;
    }
    SameLookups(after, data);
  }

  // ----- The database over runs -----

  datatype Db = Db(isOpen: bool, data: Data)

  datatype DbOp =
    | OpenOp(errorIfExists: bool)
    | CloseOp
    | PutOp(key: ByteString, value: ByteString)
    | RemoveOp(key: ByteString)
    | WriteOp(batch: seq<Write>)
    | WriteForeignOp

  /** `open`: an open database refuses, and so does one holding data when asked to. */
  function Open(db: Db, errorIfExists: bool): (Db, StorageError) {
    if db.isOpen || (errorIfExists && db.data != map[]) then (db, AlreadyExists) else (db.(isOpen := true), Success)
  }

  function Step(db: Db, op: DbOp): (Db, StorageError) {
    match op
    case OpenOp(errorIfExists) => Open(db, errorIfExists)
    case CloseOp => if db.isOpen then (Db(false, map[]), Success) else (db, Success)
    case PutOp(k, v) => if db.isOpen then (db.(data := db.data[k := v]), Success) else (db, IoError)
    case RemoveOp(k) =>
      if !db.isOpen then (db, IoError)
      else if k !in db.data then (db, NotFound)
      else (db.(data := db.data - {k}), Success)
    case WriteOp(batch) => if db.isOpen then (db.(data := ApplyBatch(db.data, batch)), Success) else (db, IoError)
    case WriteForeignOp => if db.isOpen then (db, InvalidArgument) else (db, IoError)
  }

  function Run(ops: seq<DbOp>): Db {
    if ops == [] then Db(false, map[]) else Step(Run(ops[..|ops| - 1]), ops[|ops| - 1]).0
  }

  lemma {:induction false} ClosedIsEmpty(ops: seq<DbOp>)
    ensures !Run(ops).isOpen ==> Run(ops).data == map[]
  {
    if ops != [] {
      ClosedIsEmpty(ops[..|ops| - 1]);
    }
  }

  /** Whether the last call of the run that opened or closed the database opened it. */
  function IsOpenAfter(ops: seq<DbOp>): bool {
    ops != [] &&
    (ops[|ops| - 1].OpenOp? || (!ops[|ops| - 1].CloseOp? && IsOpenAfter(ops[..|ops| - 1])))
  }

  /** The value a key has by the last call of the run that decided it: calls on a closed database decide nothing. */
  function ValueAfter(ops: seq<DbOp>, key: ByteString): Option<ByteString> {
    if ops == [] then None
    else
      var init, before := ops[..|ops| - 1], ValueAfter(ops[..|ops| - 1], key);
      match ops[|ops| - 1]
      case OpenOp(_) => before
      case CloseOp => None
      case PutOp(k, v) => if IsOpenAfter(init) && k == key then Some(v) else before
      case RemoveOp(k) => if IsOpenAfter(init) && k == key then None else before
      case WriteOp(batch) =>
        if !IsOpenAfter(init) then before
        else
          (match LastWrite(batch, key)
           case None => before
           case Some(Put(_, v)) => Some(v)
           case Some(Erase(_)) => None)
      case WriteForeignOp => before
  }

  /** In every run, what a lookup finds is what the last deciding call left, and nothing once closed. */
  lemma {:induction false} LookupOverRuns(ops: seq<DbOp>, key: ByteString)
    ensures Run(ops).isOpen == IsOpenAfter(ops)
    ensures Lookup(Run(ops).data, key) == ValueAfter(ops, key)
  {
    if ops != [] {
      var init, op := ops[..|ops| - 1], ops[|ops| - 1];
      LookupOverRuns(init, key);
      ClosedIsEmpty(init);
      if op.WriteOp? {
        LastWriteDecides(Run(init).data, op.batch, key);
      }
    }
  }

  /** In every reachable state `open` fails only because the database is open: `error_if_exists` has no effect. */
  lemma ErrorIfExistsIsIdle(ops: seq<DbOp>, errorIfExists: bool)
    ensures Open(Run(ops), errorIfExists) == Open(Run(ops), false)
    ensures Open(Run(ops), errorIfExists).1 == AlreadyExists <==> Run(ops).isOpen
  {
    ClosedIsEmpty(ops);
  }

  class MemoryDatabase {
    var isOpen: bool
    var data: Data

    function View(): Db
      reads this
    {
      Db(isOpen, data)
    }

    constructor ()
      ensures View() == Run([])
    {
      isOpen, data := false, map[];
    }

    method OpenDatabase(errorIfExists: bool) returns (error: StorageError)
      modifies this
      ensures (View(), error) == Step(old(View()), OpenOp(errorIfExists))
      ensures isOpen == (old(isOpen) || error == Success) && data == old(data)
      ensures error == if old(isOpen) || (errorIfExists && old(data) != map[]) then AlreadyExists else Success
    {
      if isOpen {
        return AlreadyExists;
      }
      if errorIfExists && data != map[] {
        return AlreadyExists;
      }
      isOpen := true;
      error := Success;
    }

    method Close() returns (error: StorageError)
      modifies this
      ensures (View(), error) == Step(old(View()), CloseOp)
      ensures !isOpen && error == Success && data == if old(isOpen) then map[] else old(data)
    {
      if isOpen {
        data := map[];
        isOpen := false;
      }
      error := Success;
    }

    method Get(key: ByteString) returns (value: ByteString, error: StorageError)
      ensures error == if !isOpen then IoError else if key in data then Success else NotFound
      ensures value == if error == Success then data[key] else []
    {
      if !isOpen {
        return [], IoError;
      }
      if key !in data {
        return [], NotFound;
      }
      return data[key], Success;
    }

    method PutValue(key: ByteString, value: ByteString) returns (error: StorageError)
      modifies this
      ensures (View(), error) == Step(old(View()), PutOp(key, value))
      ensures isOpen == old(isOpen) && error == (if isOpen then Success else IoError)
      ensures data == if isOpen then old(data)[key := value] else old(data)
    {
      if !isOpen {
        return IoError;
      }
      data := data[key := value];
      error := Success;
    }

    method Remove(key: ByteString) returns (error: StorageError)
      modifies this
      ensures (View(), error) == Step(old(View()), RemoveOp(key))
      ensures isOpen == old(isOpen) && data == if isOpen then old(data) - {key} else old(data)
      ensures error == if !isOpen then IoError else if key in old(data) then Success else NotFound
    {
      if !isOpen {
        return IoError;
      }
      if key !in data {
        return NotFound;
      }
      data := data - {key};
      error := Success;
    }

    method WriteBatch(batch: seq<Write>) returns (error: StorageError)
      modifies this
      ensures (View(), error) == Step(old(View()), WriteOp(batch))
      ensures isOpen == old(isOpen) && error == if isOpen then Success else IoError
    {
      if !isOpen {
        return IoError;
      }
      for i := 0 to |batch|
        invariant isOpen && data == ApplyBatch(old(data), batch[..i])
      {
        assert batch[..i + 1][..i] == batch[..i];
        match batch[i] {
          case Put(k, v) => data := data[k := v];
          case Erase(k) => data := data - {k};
        }
      }
      assert batch[..|batch|] == batch;
      error := Success;
    }

    /** `new_iterator`: nothing on a closed database, else an iterator over the sorted keys of the moment. */
    method NewIterator() returns (it: MemoryIterator?)
      ensures it == null <==> !isOpen
      ensures it != null ==> fresh(it) && it.Valid() && ListsKeys(it.keys, data) && it.index == -1
    {
      if !isOpen {
        return null;
      }
      it := new MemoryIterator(data);
    }
  }

  // ----- Sorted keys -----

  predicate StrictlyAscending(ks: seq<ByteString>) {
    forall i, j :: 0 <= i < j < |ks| ==> LexLess(ks[i], ks[j])
  }

  ghost predicate ListsKeys(ks: seq<ByteString>, data: Data) {
    StrictlyAscending(ks) && forall k :: k in ks <==> k in data
  }

  predicate LexAtMost(a: ByteString, b: ByteString) {
    !LexLess(b, a)
  }

  lemma LexIsTotalOrder()
    ensures TotalOrder(LexAtMost)
  {
    forall a, b
      ensures LexAtMost(a, b) || LexAtMost(b, a)
    {
      LexTotal(a, b);
    }
    forall a, b, c | LexAtMost(a, b) && LexAtMost(b, c)
      ensures LexAtMost(a, c)
    {
      LexTotal(a, b);
      LexTotal(b, c);
      if LexLess(a, b) && LexLess(b, c) {
        LexTransitive(a, b, c);
        LexTotal(a, c);
      }
    }
  }

  lemma OrderedIsAscending(ks: seq<ByteString>, s: set<ByteString>)
    requires Ordered(ks, LexAtMost) && multiset(ks) == multiset(s)
    ensures StrictlyAscending(ks)
  {
    EachOnce(ks, s);
    forall i, j | 0 <= i < j < |ks|
      ensures LexLess(ks[i], ks[j])
    {
      LexTotal(ks[i], ks[j]);
      assert LexAtMost(ks[i], ks[j]);
    }
  }

  /** Collects and sorts the keys, whatever the order in which they come. */
  method SortKeys(data: Data) returns (ks: seq<ByteString>)
    ensures ListsKeys(ks, data)
  {
    var collected := Elements(data.Keys);
    LexIsTotalOrder();
    ks := Sort(collected, LexAtMost);
    EachOnce(ks, data.Keys);
    OrderedIsAscending(ks, data.Keys);
  }

  // ----- The iterator -----

  const TWO31: int := 0x8000_0000

  /** A count cut to the 32-bit `int` in which the iterator keeps its position. */
  function ToInt32(n: int): (i: int)
    ensures -TWO31 <= i < TWO31
    ensures -TWO31 <= n < TWO31 ==> i == n
    ensures (n - i) % 0x1_0000_0000 == 0
  {
    var r := n % (2 * TWO31);
    if r < TWO31 then r else r - 2 * TWO31
  }

  /** The position after `next`; -1 is the invalid position. */
  function NextIndex(n: nat, i: int): int {
    if 0 <= i < n - 1 then i + 1 else -1
  }

  function PrevIndex(i: int): int {
    if i > 0 then i - 1 else -1
  }

  /** What the iterator shows for a key: its value in the data as they are now, nothing once it is erased. */
  function Shown(now: Data, key: ByteString): ByteString {
    match Lookup(now, key)
    case Some(value) => value
    case None => []
  }

  /** The keys with what is shown for each, in the form of a write batch. */
  function Listing(ks: seq<ByteString>, now: Data): (ws: seq<Write>)
    ensures |ws| == |ks|
  {
    seq(|ks|, i requires 0 <= i < |ks| => Put(ks[i], Shown(now, ks[i])))
  }

  lemma {:induction false} ListingLastWrite(ks: seq<ByteString>, now: Data, key: ByteString)
    ensures LastWrite(Listing(ks, now), key) == if key in ks then Some(Put(key, Shown(now, key))) else None
  {
    if ks != [] {
      var init := ks[..|ks| - 1];
      assert Listing(ks, now)[..|ks| - 1] == Listing(init, now);
      assert ks == init + [ks[|ks| - 1]];
      ListingLastWrite(init, now, key);
    }
  }

  lemma ListingLookup(ks: seq<ByteString>, now: Data, key: ByteString)
    ensures Lookup(ApplyBatch(map[], Listing(ks, now)), key) == if key in ks then Some(Shown(now, key)) else None
  {
    LastWriteDecides(map[], Listing(ks, now), key);
    ListingLastWrite(ks, now, key);
  }

  /**
   Writing what a walk read into an empty database copies the data as they are now if and only if
   no key was added or erased since the iterator was made.
   */
  lemma WalkCopiesIff(ks: seq<ByteString>, now: Data)
    ensures ApplyBatch(map[], Listing(ks, now)) == now <==> forall k :: k in ks <==> k in now
  {
    var copy := ApplyBatch(map[], Listing(ks, now));
    if copy == now {
      forall k
        ensures k in ks <==> k in now
      {
        ListingLookup(ks, now, k);
      }
    }
    if forall k :: k in ks <==> k in now {
      forall k
        ensures Lookup(copy, k) == Lookup(now, k)
      {
        ListingLookup(ks, now, k);
      }
      SameLookups(copy, now);
    }
  }

  /**
   What a walk reads of a listed key after a batch was written under the iterator: the value last
   put, nothing if it was last erased, and its old value if the batch does not mention it.
   */
  lemma WalkAfterBatch(ks: seq<ByteString>, was: Data, ws: seq<Write>, i: nat)
    requires ListsKeys(ks, was) && i < |ks|
    ensures Listing(ks, ApplyBatch(was, ws))[i] == Put(ks[i],
              match LastWrite(ws, ks[i])
              case None => was[ks[i]]
              case Some(Put(_, value)) => value
              case Some(Erase(_)) => [])
  {
    LastWriteDecides(was, ws, ks[i]);
  }

  class MemoryIterator {
    const keys: seq<ByteString>
    var index: int

    /** Keys ascend strictly and the position is a 32-bit `int` short of the end. */
    ghost predicate Valid()
      reads this
    {
      StrictlyAscending(keys) && -TWO31 <= index < TWO31 && index < |keys|
    }

    predicate IsValid()
      reads this
    {
      0 <= index < |keys|
    }

    constructor (data: Data)
      ensures Valid() && ListsKeys(keys, data) && index == -1
    {
      var ks := SortKeys(data);
      keys := ks;
      index := -1;
    }

    method SeekToFirst()
      modifies this
      ensures index == if |keys| == 0 then -1 else 0
    {
      index := if |keys| == 0 then -1 else 0;
    }

    /** The cast of the last position is exact for at most `2^31` keys. */
    method SeekToLast()
      requires Valid()
      modifies this
      ensures Valid() && index == ToInt32(|keys| - 1)
    {
      index := if |keys| == 0 then -1 else ToInt32(|keys| - 1);
      CastBelow(|keys| - 1);
    }

    /** The increment must not overflow. */
    method Next()
      requires Valid() && (index == TWO31 - 1 ==> |keys| == TWO31)
      modifies this
      ensures Valid() && index == NextIndex(|keys|, old(index))
    {
      if index >= 0 && index < |keys| - 1 {
        index := index + 1;
      } else {
        index := -1;
      }
    }

    method Prev()
      requires Valid()
      modifies this
      ensures Valid() && index == PrevIndex(old(index))
    {
      if index > 0 {
        index := index - 1;
      } else {
        index := -1;
      }
    }

    /**
     `seek`: binary search for the exact key, whose position is cut to an `int`. For at most `2^31`
     keys the iterator is valid afterwards exactly when the key is listed, and then stands on it.
     */
    method Seek(key: ByteString)
      requires Valid()
      modifies this
      ensures Valid()
      ensures if key in keys then exists i :: 0 <= i < |keys| && keys[i] == key && index == ToInt32(i) else index == -1
      ensures |keys| <= TWO31 ==> (IsValid() <==> key in keys)
      ensures |keys| <= TWO31 && IsValid() ==> keys[index] == key
    {
      var lo := LowerBound(keys, key);
      if lo < |keys| && keys[lo] == key {
        index := ToInt32(lo);
        CastBelow(lo);
      } else {
        NotBetween(keys, key, lo);
        index := -1;
      }
    }

    method Key() returns (key: ByteString)
      requires Valid()
      ensures key == if IsValid() then keys[index] else []
    {
      key := if IsValid() then keys[index] else [];
    }

    /** The value is looked up in the data as it is now; a key erased meanwhile reads as empty. */
    method Value(now: Data) returns (value: ByteString)
      requires Valid()
      ensures !IsValid() ==> value == []
      ensures IsValid() ==> Listing(keys, now)[index] == Put(keys[index], value)
    {
      if !IsValid() {
        return [];
      }
      if keys[index] in now {
        return now[keys[index]];
      }
      value := [];
    }

    /** From the first key, `next` visits every key once, in strictly increasing order, and then turns invalid. */
    method WalkForward() returns (visited: seq<ByteString>)
      requires Valid() && |keys| <= TWO31
      modifies this
      ensures visited == keys && !IsValid()
    {
      visited := [];
      SeekToFirst();
      while IsValid()
        invariant Valid()
        invariant visited == if index == -1 then keys else keys[..index]
        invariant index >= -1
        decreases if index == -1 then 0 else |keys| - index
      {
        var k := Key();
        visited := visited + [k];
        Next();
      }
    }

    /**
     The same walk reading key and value at each position. With the data unchanged since the
     iterator was made, what was read is the whole of the data.
     */
    method ReadAll(now: Data) returns (read: seq<Write>)
      requires Valid() && |keys| <= TWO31
      modifies this
      ensures read == Listing(keys, now) && !IsValid()
      ensures ListsKeys(keys, now) ==> ApplyBatch(map[], read) == now
    {
      read := [];
      SeekToFirst();
      while IsValid()
        invariant Valid()
        invariant read == if index == -1 then Listing(keys, now) else Listing(keys, now)[..index]
        invariant index >= -1
        decreases if index == -1 then 0 else |keys| - index
      {
        var k := Key();
        var v := Value(now);
        read := read + [Put(k, v)];
        Next();
      }
      WalkCopiesIff(keys, now);
    }

    /**
     From the last key, `prev` visits the same keys in the reverse order. Of more than `2^31` keys
     it visits only those up to the position the cast leaves, and none if that is negative.
     */
    method WalkBackward() returns (visited: seq<ByteString>)
      requires Valid()
      modifies this
      ensures !IsValid()
      ensures var last := ToInt32(|keys| - 1);
              |visited| == (if last < 0 then 0 else last + 1) &&
              forall i :: 0 <= i < |visited| ==> visited[i] == keys[last - i]
      ensures |keys| <= TWO31 ==> |visited| == |keys|
    {
      visited := [];
      SeekToLast();
      ghost var last := index;
      while IsValid()
        invariant Valid()
        invariant last < 0 ==> index == last && visited == []
        invariant last >= 0 ==> index >= -1 && |visited| == last - index
        invariant last < |keys| && forall i :: 0 <= i < |visited| ==> visited[i] == keys[last - i]
        decreases index + 1
      {
        var k := Key();
        visited := visited + [k];
        Prev();
      }
    }
  }

  lemma CastBelow(n: int)
    requires n >= -1
    ensures ToInt32(n) <= n
  {
  }

  /** `std::lower_bound`: the first position whose key is not below the wanted one. */
  method LowerBound(ks: seq<ByteString>, key: ByteString) returns (lo: nat)
    requires StrictlyAscending(ks)
    ensures lo <= |ks|
    ensures forall i :: 0 <= i < lo ==> LexLess(ks[i], key)
    ensures forall i :: lo <= i < |ks| ==> !LexLess(ks[i], key)
  {
    lo := 0;
    var hi := |ks|;
    while lo < hi
      invariant 0 <= lo <= hi <= |ks|
      invariant forall i :: 0 <= i < lo ==> LexLess(ks[i], key)
      invariant forall i :: hi <= i < |ks| ==> !LexLess(ks[i], key)
    {
      var mid := (lo + hi) / 2;
      if LexLess(ks[mid], key) {
        forall i | 0 <= i <= mid
          ensures LexLess(ks[i], key)
        {
          if i < mid {
            LexTransitive(ks[i], ks[mid], key);
          }
        }
        lo := mid + 1;
      } else {
        forall i | mid <= i < |ks|
          ensures !LexLess(ks[i], key)
        {
          if i > mid && LexLess(ks[i], key) {
            LexTransitive(ks[mid], ks[i], key);
          }
        }
        hi := mid;
      }
    }
  }

  lemma NotBetween(ks: seq<ByteString>, key: ByteString, lo: nat)
    requires StrictlyAscending(ks) && lo <= |ks|
    requires forall i :: 0 <= i < lo ==> LexLess(ks[i], key)
    requires forall i :: lo <= i < |ks| ==> !LexLess(ks[i], key)
    requires lo < |ks| ==> ks[lo] != key
    ensures key !in ks
  {
    LexIrreflexive(key);
    forall i | 0 <= i < |ks|
      ensures ks[i] != key
    {
      if i > lo {
        assert LexLess(ks[lo], ks[i]);
      }
    }
  }
}
