/** AddAllBackupOperation: the backup half of a queue's addAll. It carries
    the queue's name and the ordered list of nullable Data blobs to add,
    writes them as a counted list, reads them back into a fresh list, and on
    the backup replica hands the whole list to the queue's container. */
module Queue {
  import opened Wire
  import opened Streams

  /** A Java collection of Data references, any of which may be null; its
      size() is an int. */
  type DataList = l: seq<Option<Data>> | |l| <= INT32_MAX

  /** The values of an operation's two fields. */
  datatype BackupOp = BackupOp(name: JString, dataList: DataList)

  /** The backup copy of one queue. Only the single call the operation makes
      is modelled: addAllBackup appends the whole list, in order. */
  class QueueContainer {
    var items: seq<Option<Data>>

    constructor ()
      ensures items == []
    {
      items := [];
    }

    method AddAllBackup(list: seq<Option<Data>>)
      modifies this
      ensures items == old(items) + list
    {
      items := items + list;
    }
  }

  class AddAllBackupOperation {
    var name: JString
    var dataList: DataList

    function State(): BackupOp
      reads this
    {
      BackupOp(name, dataList)
    }

    /** The no-argument constructor used before readInternal. The Java
        fields start out null; here they start out empty. */
    constructor Blank()
      ensures State() == BackupOp([], [])
    {
      name, dataList := [], [];
    }

    /** Stores the name and the very list given. */
    constructor (name: JString, dataList: DataList)
      ensures State() == BackupOp(name, dataList)
    {
      this.name, this.dataList := name, dataList;
    }

    /** run: the whole list, in order, goes to the container in one call;
        the operation itself is left as it was. */
    method Run(container: QueueContainer)
      modifies container
      ensures container.items == old(container.items) + dataList
    {
      container.AddAllBackup(dataList);
    }

    /** writeInternal: the inherited header (the queue's name), the count,
        then each entry in list order. Only the header can fail, and it is
        written first, so a failure leaves the output as it was. */
    method WriteInternal(out: ByteOutput) returns (o: Outcome<IoError>)
      modifies out
      ensures match EncodeOp(State())
              case Ok(w) => o == Pass && out.bytes == old(out.bytes) + w
              case Err(e) => o == Fail(e) && out.bytes == old(out.bytes)
    {
      o := out.WriteUtf(name);
      if o.Fail? {
        return;
      }
      ghost var header := old(out.bytes) + EncodeUtf(name).value;
      out.WriteInt(|dataList|);
      header := header + EncodeInt32(|dataList|);
      var i := 0;
      while i < |dataList|
        invariant 0 <= i <= |dataList|
        invariant out.bytes == header + EncodeEntries(dataList[..i])
      {
        out.WriteNullableData(dataList[i]);
        EntriesSnoc(dataList[..i + 1]);
        assert dataList[..i + 1][..i] == dataList[..i];
        AppendAssoc(header, EncodeEntries(dataList[..i]), EncodeNullableData(dataList[i]));
        i := i + 1;
      }
      assert dataList[..i] == dataList;
      AppendAssoc(old(out.bytes), EncodeUtf(name).value, EncodeInt32(|dataList|));
      AppendAssoc(old(out.bytes), EncodeUtf(name).value + EncodeInt32(|dataList|), EncodeEntries(dataList));
    }

    /** readInternal: the header, the count, a fresh empty list, then one
        readNullableData per counted entry, each appended in read order.
        Whatever the list held before is replaced. */
    method ReadInternal(input: ByteInput) returns (o: Outcome<IoError>)
      modifies this, input
      ensures var r := DecodeOp(input.buf, old(input.pos));
              if r.Ok? then o == Pass && State() == r.value.item && input.pos == r.value.next
              else o == Fail(r.error)
    {
      ghost var start := input.pos;
      var n := input.ReadUtf();
      if n.Err? { return Fail(n.error); }
      name := n.value;
      ghost var afterName := input.pos;
      var size := input.ReadInt();
      if size.Err? { return Fail(size.error); }
      if size.value < 0 { return Fail(NegativeSize); }
      dataList := [];
      ghost var p0 := input.pos;
      var i := 0;
      while i < size.value
        invariant 0 <= i <= size.value
        invariant name == n.value
        invariant DecodeEntries(input.buf, p0, i) == Ok(Read(dataList, input.pos))
      {
        ghost var before := input.pos;
        var d := input.ReadNullableData();
        if d.Err? {
          DecodeOpFails(input.buf, start, name, afterName, size.value, p0, i, dataList, before, d.error);
          return Fail(d.error);
        }
        EntriesReadOne(input.buf, p0, i, dataList, before, d.value, input.pos);
        dataList := dataList + [d.value];
        i := i + 1;
      }
      DecodeOpSteps(input.buf, start, name, dataList, afterName, p0, input.pos);
      o := Pass;
    }
  }

  // -----------------------------------------------------------------------
  // Wire form: writeUTF(name), writeInt(count), count nullable entries

  /** The entries of a list in writeNullableData form, in list order. */
  function EncodeEntries(list: seq<Option<Data>>): (r: seq<byte>)
    ensures |r| >= |list|
  {
    if list == [] then []
    else EncodeEntries(list[..|list| - 1]) + EncodeNullableData(list[|list| - 1])
  }

  /** Writing one more entry appends its nullable form. */
  lemma EntriesSnoc(list: seq<Option<Data>>)
    requires list != []
    ensures EncodeEntries(list) == EncodeEntries(list[..|list| - 1]) + EncodeNullableData(list[|list| - 1])
  {
  }

  /** `n` readNullableData calls from `at`, collected in read order. */
  function DecodeEntries(s: seq<byte>, at: nat, n: nat): (r: Result<Read<seq<Option<Data>>>, IoError>)
    ensures r.Ok? ==> |r.value.item| == n && at <= r.value.next
    ensures r.Ok? && n > 0 ==> r.value.next <= |s|
    decreases n
  {
    if n == 0 then Ok(Read([], at))
    else
      var prev :- DecodeEntries(s, at, n - 1);
      var d :- DecodeNullableData(s, prev.next);
      Ok(Read(prev.item + [d.item], d.next))
  }

  /** writeInternal's output: fails only when the name is over writeUTF's
      limit. */
  function EncodeOp(op: BackupOp): (r: Result<seq<byte>, IoError>)
    ensures r.Ok? <==> EncodeUtf(op.name).Ok?
    ensures r.Err? ==> r.error == UtfTooLong
  {
    var header :- EncodeUtf(op.name);
    Ok(header + EncodeInt32(|op.dataList|) + EncodeEntries(op.dataList))
  }

  /** readInternal's reads from position `at`. A negative count is the
      IllegalArgumentException of `new ArrayList(size)`. On success the
      list holds exactly as many entries as the count read after the
      header said. */
  function DecodeOp(s: seq<byte>, at: nat): (r: Result<Read<BackupOp>, IoError>)
    ensures r.Ok? ==> DecodeUtf(s, at).Ok? && DecodeInt32(s, DecodeUtf(s, at).value.next).Ok?
                      && DecodeInt32(s, DecodeUtf(s, at).value.next).value.item == |r.value.item.dataList|
  {
    var n :- DecodeUtf(s, at);
    var size :- DecodeInt32(s, n.next);
    if size.item < 0 then Err(NegativeSize)
    else
      var entries :- DecodeEntries(s, size.next, size.item);
      Ok(Read(BackupOp(n.item, entries.item), entries.next))
  }

  /** Once an entry fails to read, every longer read of entries fails the
      same way. */
  lemma {:induction false} EntriesErrorStays(s: seq<byte>, at: nat, k: nat, n: nat)
    requires k <= n && DecodeEntries(s, at, k).Err?
    ensures DecodeEntries(s, at, n) == DecodeEntries(s, at, k)
    decreases n
  {
    if k < n {
      EntriesErrorStays(s, at, k, n - 1);
    }
  }

  /** Where a list's entries were written, reading that many entries gives
      the list back, nulls in place and in order, and stops at `e`, the end
      of what was written. */
  lemma {:induction false} EntriesRoundTrip(list: seq<Option<Data>>, s: seq<byte>, at: nat, e: nat)
    requires Holds(s, at, EncodeEntries(list))
    requires e == at + |EncodeEntries(list)|
    ensures DecodeEntries(s, at, |list|) == Ok(Read(list, e))
    decreases |list|
  {
    if list != [] {
      var init, last := list[..|list| - 1], list[|list| - 1];
      var mid := at + |EncodeEntries(init)|;
      EntriesSplit(list, s, at, mid, e);
      EntriesRoundTrip(init, s, at, mid);
      NullableDataRoundTrip(last, s, mid, e);
      EntriesReadOne(s, at, |init|, init, mid, last, e);
      LastSplit(list);
    }
  }

  /** The entries of a non-empty list are those of its front, ending at
      `mid`, then its last entry, ending at `e`. */
  lemma EntriesSplit(list: seq<Option<Data>>, s: seq<byte>, at: nat, mid: nat, e: nat)
    requires list != []
    requires Holds(s, at, EncodeEntries(list))
    requires mid == at + |EncodeEntries(list[..|list| - 1])| && e == at + |EncodeEntries(list)|
    ensures Holds(s, at, EncodeEntries(list[..|list| - 1]))
    ensures Holds(s, mid, EncodeNullableData(list[|list| - 1]))
    ensures e == mid + |EncodeNullableData(list[|list| - 1])|
  {
    EntriesSnoc(list);
    HoldsSplit(s, at, EncodeEntries(list[..|list| - 1]), EncodeNullableData(list[|list| - 1]), mid);
  }

  /** A non-empty sequence is its front followed by its last element. */
  lemma LastSplit<T>(l: seq<T>)
    requires l != []
    ensures l[..|l| - 1] + [l[|l| - 1]] == l
  {
  }

  /** One more entry read where the previous ones stopped extends the list
      by it. */
  lemma EntriesReadOne(s: seq<byte>, at: nat, n: nat, prev: seq<Option<Data>>, mid: nat,
                       d: Option<Data>, e: nat)
    requires DecodeEntries(s, at, n) == Ok(Read(prev, mid))
    requires DecodeNullableData(s, mid) == Ok(Read(d, e))
    ensures DecodeEntries(s, at, n + 1) == Ok(Read(prev + [d], e))
  {
  }

  /** An entry that fails to read where the previous ones stopped fails the
      longer read with its error. */
  lemma EntriesReadFails(s: seq<byte>, at: nat, n: nat, prev: seq<Option<Data>>, mid: nat, err: IoError)
    requires DecodeEntries(s, at, n) == Ok(Read(prev, mid))
    requires DecodeNullableData(s, mid) == Err(err)
    ensures DecodeEntries(s, at, n + 1) == Err(err)
  {
  }

  /** DecodeOp is the header read, the count read and the entry reads in
      turn: when each succeeds where the previous one stopped, the
      operation is theirs. */
  lemma DecodeOpSteps(s: seq<byte>, at: nat, name: JString, list: DataList, p: nat, q: nat, e: nat)
    requires DecodeUtf(s, at) == Ok(Read(name, p))
    requires DecodeInt32(s, p) == Ok(Read(|list|, q))
    requires DecodeEntries(s, q, |list|) == Ok(Read(list, e))
    ensures DecodeOp(s, at) == Ok(Read(BackupOp(name, list), e))
  {
  }

  /** When, after a valid header and a count of `size`, the entry at index
      `i` fails to read, DecodeOp fails with that entry's error. */
  lemma DecodeOpFails(s: seq<byte>, at: nat, name: JString, p: nat, size: Int32, q: nat,
                      i: nat, prev: seq<Option<Data>>, mid: nat, err: IoError)
    requires DecodeUtf(s, at) == Ok(Read(name, p))
    requires DecodeInt32(s, p) == Ok(Read(size, q))
    requires i < size && DecodeEntries(s, q, i) == Ok(Read(prev, mid))
    requires DecodeNullableData(s, mid) == Err(err)
    ensures DecodeOp(s, at) == Err(err)
  {
    EntriesReadFails(s, q, i, prev, mid, err);
    EntriesErrorStays(s, q, i + 1, size);
  }

  /** Where an operation was written, each of readInternal's reads finds
      what was written for it where the previous read stopped: `p` is where
      the header ends and `e` where the last entry ends. */
  lemma OpFields(op: BackupOp, s: seq<byte>, at: nat, p: nat, e: nat)
    requires EncodeOp(op).Ok? && Holds(s, at, EncodeOp(op).value)
    requires p == at + |EncodeUtf(op.name).value| && e == at + |EncodeOp(op).value|
    ensures DecodeUtf(s, at) == Ok(Read(op.name, p))
    ensures DecodeInt32(s, p) == Ok(Read(|op.dataList|, p + 4))
    ensures DecodeEntries(s, p + 4, |op.dataList|) == Ok(Read(op.dataList, e))
  {
    OpSplit(op, s, at, p, e);
    UtfRoundTrip(op.name, s, at, p);
    Int32RoundTrip(|op.dataList|, s, p);
    EntriesRoundTrip(op.dataList, s, p + 4, e);
  }

  /** The three parts of an encoded operation, found one after the other. */
  lemma OpSplit(op: BackupOp, s: seq<byte>, at: nat, p: nat, e: nat)
    requires EncodeOp(op).Ok? && Holds(s, at, EncodeOp(op).value)
    requires p == at + |EncodeUtf(op.name).value| && e == at + |EncodeOp(op).value|
    ensures EncodeUtf(op.name).Ok? && Holds(s, at, EncodeUtf(op.name).value)
    ensures Holds(s, p, EncodeInt32(|op.dataList|))
    ensures Holds(s, p + 4, EncodeEntries(op.dataList)) && e == p + 4 + |EncodeEntries(op.dataList)|
  {
    var h := EncodeUtf(op.name).value;
    var c := EncodeInt32(|op.dataList|);
    var x := EncodeEntries(op.dataList);
    assert EncodeOp(op).value == h + c + x;
    HoldsSplit(s, at, h + c, x, p + 4);
    HoldsSplit(s, at, h, c, p);
  }

  /** readInternal gives back the name and the list writeInternal wrote,
      and stops just past them. */
  lemma OpRoundTrip(op: BackupOp, s: seq<byte>, at: nat, e: nat)
    requires EncodeOp(op).Ok? && Holds(s, at, EncodeOp(op).value)
    requires e == at + |EncodeOp(op).value|
    ensures DecodeOp(s, at) == Ok(Read(op, e))
  {
    var p := at + |EncodeUtf(op.name).value|;
    OpFields(op, s, at, p, e);
    DecodeOpSteps(s, at, op.name, op.dataList, p, p + 4, e);
  }

  /** A negative count after the header is rejected before any entry is
      read. */
  lemma NegativeCountRejected(name: JString, size: Int32, s: seq<byte>, at: nat)
    requires EncodeUtf(name).Ok? && Holds(s, at, EncodeUtf(name).value + EncodeInt32(size))
    requires size < 0
    ensures DecodeOp(s, at) == Err(NegativeSize)
  {
    var h := EncodeUtf(name).value;
    HoldsSplit(s, at, h, EncodeInt32(size), at + |h|);
    UtfRoundTrip(name, s, at, at + |h|);
    Int32RoundTrip(size, s, at + |h|);
  }

  /** A count of zero gives an empty list and reads nothing after it. */
  lemma ZeroCountEmpty(name: JString, s: seq<byte>, at: nat)
    requires EncodeUtf(name).Ok? && Holds(s, at, EncodeUtf(name).value + EncodeInt32(0))
    ensures DecodeOp(s, at) == Ok(Read(BackupOp(name, []), at + |EncodeUtf(name).value| + 4))
  {
    var h := EncodeUtf(name).value;
    HoldsSplit(s, at, h, EncodeInt32(0), at + |h|);
    UtfRoundTrip(name, s, at, at + |h|);
    Int32RoundTrip(0, s, at + |h|);
  }

  /** A backup sent to a replica: the primary serialises the operation, the
      replica deserialises the bytes into a blank operation. Unless the name
      is over writeUTF's limit, the replica's copy has the same name and the
      same list, entry for entry. */
  method SendToReplica(op: AddAllBackupOperation) returns (copy: AddAllBackupOperation, o: Outcome<IoError>)
    ensures o.Fail? <==> EncodeUtf(op.name).Err?
    ensures o.Fail? ==> o.error == UtfTooLong
    ensures o.Pass? ==> copy.State() == op.State()
  {
    var out := new ByteOutput();
    o := op.WriteInternal(out);
    copy := new AddAllBackupOperation.Blank();
    if o.Fail? {
      return;
    }
    ghost var w := EncodeOp(op.State()).value;
    var input := new ByteInput(out.bytes);
    HoldsSlice(input.buf, 0, w);
    OpRoundTrip(op.State(), input.buf, 0, |w|);
    o := copy.ReadInternal(input);
  }

  /** A client: a batch with a null in third place, run on an empty backup
      container, lands there whole and in order. */
  method RunExample()
  {
    var batch: DataList := [Some([0x61]), Some([0x62]), None, Some([0x64])];
    var op := new AddAllBackupOperation(Lit("q"), batch);
    var container := new QueueContainer();
    op.Run(container);
    assert container.items == batch && |container.items| == 4 && container.items[2] == None;
  }
}
