/** ExecutorConfig: the named, mutable record that sizes one worker pool,
    with its fail-fast setters and its field-by-field wire form. */
module Config {
  import opened Wire
  import opened Streams

  /** The three scheduling disciplines, in declaration order. */
  datatype ExecutorType = BlockingParallel | Parallel | Queued {
    /** Enum.name(): the constant's identifier. */
    function Name(): (r: JString)
      ensures 6 <= |r| <= 16
    {
      match this
      case BlockingParallel => Lit("BlockingParallel")
      case Parallel => Lit("Parallel")
      case Queued => Lit("Queued")
    }
  }

  predicate IsTypeName(s: JString) {
    s == BlockingParallel.Name() || s == Parallel.Name() || s == Queued.Name()
  }

  /** ExecutorType.valueOf: the constant whose name is `s`, or the
      IllegalArgumentException Enum.valueOf throws for any other string. */
  function ExecutorTypeValueOf(s: JString): (r: Result<ExecutorType, IoError>)
    ensures r.Ok? <==> IsTypeName(s)
    ensures r.Ok? ==> r.value.Name() == s
    ensures r.Err? ==> r.error == UnknownEnumName
  {
    if s == BlockingParallel.Name() then Ok(BlockingParallel)
    else if s == Parallel.Name() then Ok(Parallel)
    else if s == Queued.Name() then Ok(Queued)
    else Err(UnknownEnumName)
  }

  /** valueOf inverts name(). */
  lemma ValueOfName(t: ExecutorType)
    ensures ExecutorTypeValueOf(t.Name()) == Ok(t)
  {
  }

  /** The values of an ExecutorConfig's six fields. */
  datatype ExecutorSettings = ExecutorSettings(
    name: JString,
    corePoolSize: Int32,
    maxPoolSize: Int32,
    keepAliveSeconds: Int32,
    capacity: Int32,
    executorType: ExecutorType)
  {
    /** The bounds the validating setters enforce. */
    predicate SizesValid() {
      corePoolSize >= 0 && maxPoolSize > 0 && keepAliveSeconds > 0
    }
  }

  const DEFAULT_CORE_POOL_SIZE: Int32 := 40
  const DEFAULT_MAX_POOL_SIZE: Int32 := 40
  const DEFAULT_CAPACITY: Int32 := INT32_MAX
  const DEFAULT_KEEP_ALIVE_SECONDS: Int32 := 300
  const DEFAULT_EXECUTOR_TYPE: ExecutorType := Parallel

  /** The field initialisers: what a no-argument construction holds. */
  const DEFAULTS: ExecutorSettings := ExecutorSettings(
    Lit("default"), DEFAULT_CORE_POOL_SIZE, DEFAULT_MAX_POOL_SIZE,
    DEFAULT_KEEP_ALIVE_SECONDS, DEFAULT_CAPACITY, DEFAULT_EXECUTOR_TYPE)

  /** The IllegalArgumentException a validating setter throws. */
  datatype ConfigError = IllegalArgument(message: string)

  class ExecutorConfig {
    var name: JString
    var corePoolSize: Int32
    var maxPoolSize: Int32
    var capacity: Int32
    var keepAliveSeconds: Int32
    var executorType: ExecutorType

    function Settings(): ExecutorSettings
      reads this
    {
      ExecutorSettings(name, corePoolSize, maxPoolSize, keepAliveSeconds, capacity, executorType)
    }

    /** The invariant of a config built only through the validating setters. */
    ghost predicate Valid()
      reads this
    {
      Settings().SizesValid()
    }

    constructor ()
      ensures Settings() == DEFAULTS
      ensures Valid()
    {
      name := Lit("default");
      corePoolSize := DEFAULT_CORE_POOL_SIZE;
      maxPoolSize := DEFAULT_MAX_POOL_SIZE;
      capacity := DEFAULT_CAPACITY;
      keepAliveSeconds := DEFAULT_KEEP_ALIVE_SECONDS;
      executorType := DEFAULT_EXECUTOR_TYPE;
    }

    constructor Named(name: JString)
      ensures Settings() == DEFAULTS.(name := name)
      ensures Valid()
    {
      this.name := name;
      corePoolSize := DEFAULT_CORE_POOL_SIZE;
      maxPoolSize := DEFAULT_MAX_POOL_SIZE;
      capacity := DEFAULT_CAPACITY;
      keepAliveSeconds := DEFAULT_KEEP_ALIVE_SECONDS;
      executorType := DEFAULT_EXECUTOR_TYPE;
    }

    /** Stores the three sizes without checking them, so the result is
        valid exactly when the arguments happen to be. */
    constructor WithSizes(name: JString, corePoolSize: Int32, maxPoolSize: Int32, keepAliveSeconds: Int32)
      ensures Settings() == DEFAULTS.(name := name, corePoolSize := corePoolSize,
                                      maxPoolSize := maxPoolSize, keepAliveSeconds := keepAliveSeconds)
      ensures Valid() <==> corePoolSize >= 0 && maxPoolSize > 0 && keepAliveSeconds > 0
    {
      this.name := name;
      this.corePoolSize := corePoolSize;
      this.maxPoolSize := maxPoolSize;
      this.keepAliveSeconds := keepAliveSeconds;
      capacity := DEFAULT_CAPACITY;
      executorType := DEFAULT_EXECUTOR_TYPE;
    }

    method SetName(name: JString) returns (self: ExecutorConfig)
      modifies this
      ensures self == this
      ensures Settings() == old(Settings()).(name := name)
      ensures old(Valid()) ==> Valid()
    {
      this.name := name;
      self := this;
    }

    /** Zero is accepted; a negative size throws and changes nothing. */
    method SetCorePoolSize(corePoolSize: Int32) returns (r: Result<ExecutorConfig, ConfigError>)
      modifies this
      ensures r.Ok? <==> corePoolSize >= 0
      ensures r.Ok? ==> r.value == this && Settings() == old(Settings()).(corePoolSize := corePoolSize)
      ensures r.Err? ==> r.error == IllegalArgument("corePoolSize must be positive")
                         && Settings() == old(Settings())
      ensures old(Valid()) ==> Valid()
    {
      if corePoolSize < 0 {
        return Err(IllegalArgument("corePoolSize must be positive"));
      }
      this.corePoolSize := corePoolSize;
      r := Ok(this);
    }

    /** A size of zero or less throws and changes nothing. */
    method SetMaxPoolSize(maxPoolSize: Int32) returns (r: Result<ExecutorConfig, ConfigError>)
      modifies this
      ensures r.Ok? <==> maxPoolSize > 0
      ensures r.Ok? ==> r.value == this && Settings() == old(Settings()).(maxPoolSize := maxPoolSize)
      ensures r.Err? ==> r.error == IllegalArgument("maxPoolSize must be positive")
                         && Settings() == old(Settings())
      ensures old(Valid()) ==> Valid()
    {
      if maxPoolSize <= 0 {
        return Err(IllegalArgument("maxPoolSize must be positive"));
      }
      this.maxPoolSize := maxPoolSize;
      r := Ok(this);
    }

    /** Stores any value, negative ones included. */
    method SetCapacity(capacity: Int32)
      modifies this
      ensures Settings() == old(Settings()).(capacity := capacity)
      ensures old(Valid()) ==> Valid()
    {
      this.capacity := capacity;
    }

    /** Zero or less throws and changes nothing; the message carries the
        source's own spelling. */
    method SetKeepAliveSeconds(keepAliveSeconds: Int32) returns (r: Result<ExecutorConfig, ConfigError>)
      modifies this
      ensures r.Ok? <==> keepAliveSeconds > 0
      ensures r.Ok? ==> r.value == this && Settings() == old(Settings()).(keepAliveSeconds := keepAliveSeconds)
      ensures r.Err? ==> r.error == IllegalArgument("keepAlice seconds must be positive")
                         && Settings() == old(Settings())
      ensures old(Valid()) ==> Valid()
    {
      if keepAliveSeconds <= 0 {
        return Err(IllegalArgument("keepAlice seconds must be positive"));
      }
      this.keepAliveSeconds := keepAliveSeconds;
      r := Ok(this);
    }

    method SetExecutorType(executorType: ExecutorType)
      modifies this
      ensures Settings() == old(Settings()).(executorType := executorType)
      ensures old(Valid()) ==> Valid()
    {
      this.executorType := executorType;
    }

    /** writeData: the six fields in wire order. Only the name can be too
        long for writeUTF, and it is written first, so a failure leaves the
        output as it was. */
    method WriteData(out: ByteOutput) returns (o: Outcome<IoError>)
      modifies out
      ensures match EncodeConfig(Settings())
              case Ok(w) => o == Pass && out.bytes == old(out.bytes) + w
              case Err(e) => o == Fail(e) && out.bytes == old(out.bytes)
    {
      ghost var c := Settings();
      ghost var before := out.bytes;
      o := out.WriteUtf(name);
      if o.Fail? {
        return;
      }
      EncodeConfigFields(c);
      ghost var w := EncodeUtf(name).value;
      out.WriteInt(corePoolSize);
      AppendAssoc(before, w, EncodeInt32(corePoolSize));
      w := w + EncodeInt32(corePoolSize);
      out.WriteInt(maxPoolSize);
      AppendAssoc(before, w, EncodeInt32(maxPoolSize));
      w := w + EncodeInt32(maxPoolSize);
      out.WriteInt(keepAliveSeconds);
      AppendAssoc(before, w, EncodeInt32(keepAliveSeconds));
      w := w + EncodeInt32(keepAliveSeconds);
      out.WriteInt(capacity);
      AppendAssoc(before, w, EncodeInt32(capacity));
      w := w + EncodeInt32(capacity);
      var typeName := executorType.Name();
      o := out.WriteUtf(typeName);
      AppendAssoc(before, w, EncodeUtf(typeName).value);
      w := w + EncodeUtf(typeName).value;
      assert Settings() == c;
    }

    /** readData: overwrites the fields one by one from the stream, in
        wire order. On success every field holds the decoded record; on
        failure the type, assigned last, still holds its old value. */
    method ReadData(input: ByteInput) returns (o: Outcome<IoError>)
      modifies this, input
      ensures match DecodeConfig(input.buf, old(input.pos))
              case Ok(rd) => o == Pass && Settings() == rd.item && input.pos == rd.next
              case Err(e) => o == Fail(e) && executorType == old(executorType)
    {
      var n := input.ReadUtf();
      if n.Err? { return Fail(n.error); }
      name := n.value;
      o := ReadSizes(input);
      if o.Fail? { return; }
      var typeName := input.ReadUtf();
      if typeName.Err? { return Fail(typeName.error); }
      var t := ExecutorTypeValueOf(typeName.value);
      if t.Err? { return Fail(t.error); }
      executorType := t.value;
    }

    /** The four int fields of readData, read and assigned in wire order. */
    method ReadSizes(input: ByteInput) returns (o: Outcome<IoError>)
      modifies this, input
      ensures name == old(name) && executorType == old(executorType)
      ensures match DecodeSizes(input.buf, old(input.pos))
              case Ok(rd) => o == Pass && input.pos == rd.next
                             && (corePoolSize, maxPoolSize, keepAliveSeconds, capacity) == rd.item
              case Err(e) => o == Fail(e)
    {
      var core := input.ReadInt();
      if core.Err? { return Fail(core.error); }
      corePoolSize := core.value;
      var max := input.ReadInt();
      if max.Err? { return Fail(max.error); }
      maxPoolSize := max.value;
      var keep := input.ReadInt();
      if keep.Err? { return Fail(keep.error); }
      keepAliveSeconds := keep.value;
      var cap := input.ReadInt();
      if cap.Err? { return Fail(cap.error); }
      capacity := cap.value;
      o := Pass;
    }
  }

  // -----------------------------------------------------------------------
  // Wire form: writeUTF(name), writeInt x4, writeUTF(type name)

  /** The bytes writeData emits for the given field values, with the type
      written as an arbitrary string. */
  function RecordBytes(name: JString, corePoolSize: Int32, maxPoolSize: Int32,
                       keepAliveSeconds: Int32, capacity: Int32, typeName: JString)
    : (r: Result<seq<byte>, IoError>)
    ensures r.Ok? <==> EncodeUtf(name).Ok? && EncodeUtf(typeName).Ok?
    ensures r.Ok? ==> |r.value| == |EncodeUtf(name).value| + 16 + |EncodeUtf(typeName).value|
  {
    var n :- EncodeUtf(name);
    var t :- EncodeUtf(typeName);
    Ok(n + EncodeInt32(corePoolSize) + EncodeInt32(maxPoolSize)
         + EncodeInt32(keepAliveSeconds) + EncodeInt32(capacity) + t)
  }

  /** A type name is always short enough for writeUTF. */
  lemma TypeNameEncodes(t: ExecutorType)
    ensures EncodeUtf(t.Name()).Ok?
  {
    ShortStringsEncode(t.Name());
  }

  /** writeData's output, field by field, when the name fits writeUTF. */
  lemma EncodeConfigFields(c: ExecutorSettings)
    requires EncodeUtf(c.name).Ok?
    ensures EncodeUtf(c.executorType.Name()).Ok?
    ensures EncodeConfig(c) == Ok(EncodeUtf(c.name).value + EncodeInt32(c.corePoolSize)
                                  + EncodeInt32(c.maxPoolSize) + EncodeInt32(c.keepAliveSeconds)
                                  + EncodeInt32(c.capacity) + EncodeUtf(c.executorType.Name()).value)
  {
    TypeNameEncodes(c.executorType);
  }

  /** writeData's output: fails only when the name is over writeUTF's limit. */
  function EncodeConfig(c: ExecutorSettings): (r: Result<seq<byte>, IoError>)
    ensures r.Ok? <==> EncodeUtf(c.name).Ok?
    ensures r.Err? ==> r.error == UtfTooLong
  {
    TypeNameEncodes(c.executorType);
    RecordBytes(c.name, c.corePoolSize, c.maxPoolSize, c.keepAliveSeconds, c.capacity,
                c.executorType.Name())
  }

  /** The four ints readData reads after the name: core and maximum pool
      sizes, keep-alive seconds and capacity. */
  function DecodeSizes(s: seq<byte>, at: nat): (r: Result<Read<(Int32, Int32, Int32, Int32)>, IoError>)
    ensures r.Ok? <==> at + 16 <= |s|
    ensures r.Ok? ==> r.value.next == at + 16
    ensures r.Err? ==> r.error == EndOfStream
  {
    var core :- DecodeInt32(s, at);
    var max :- DecodeInt32(s, core.next);
    var keep :- DecodeInt32(s, max.next);
    var cap :- DecodeInt32(s, keep.next);
    Ok(Read((core.item, max.item, keep.item, cap.item), cap.next))
  }

  /** readData's reads from position `at`, in order; no size is checked. */
  function DecodeConfig(s: seq<byte>, at: nat): (r: Result<Read<ExecutorSettings>, IoError>)
    ensures r.Ok? ==> at + 20 <= r.value.next <= |s|
  {
    var n :- DecodeUtf(s, at);
    var sizes :- DecodeSizes(s, n.next);
    var typeName :- DecodeUtf(s, sizes.next);
    var t :- ExecutorTypeValueOf(typeName.item);
    var (core, max, keep, cap) := sizes.item;
    Ok(Read(ExecutorSettings(n.item, core, max, keep, cap, t), typeName.next))
  }

  /** DecodeConfig is the three reads in turn, then valueOf: when each read
      succeeds where the previous one stopped, the record is theirs, or
      valueOf's error. */
  lemma DecodeConfigSteps(s: seq<byte>, at: nat, name: JString, sizes: (Int32, Int32, Int32, Int32),
                          typeName: JString, p: nat, q: nat, e: nat)
    requires DecodeUtf(s, at) == Ok(Read(name, p))
    requires DecodeSizes(s, p) == Ok(Read(sizes, q))
    requires DecodeUtf(s, q) == Ok(Read(typeName, e))
    ensures IsTypeName(typeName) ==>
              DecodeConfig(s, at) == Ok(Read(ExecutorSettings(name, sizes.0, sizes.1, sizes.2, sizes.3,
                                                              ExecutorTypeValueOf(typeName).value), e))
    ensures !IsTypeName(typeName) ==> DecodeConfig(s, at) == Err(UnknownEnumName)
  {
  }

  /** Where the four ints were written, DecodeSizes reads them back. */
  lemma SizesRoundTrip(corePoolSize: Int32, maxPoolSize: Int32, keepAliveSeconds: Int32, capacity: Int32,
                       s: seq<byte>, at: nat, e: nat)
    requires Holds(s, at, EncodeInt32(corePoolSize) + EncodeInt32(maxPoolSize)
                          + EncodeInt32(keepAliveSeconds) + EncodeInt32(capacity))
    requires e == at + 16
    ensures DecodeSizes(s, at) == Ok(Read((corePoolSize, maxPoolSize, keepAliveSeconds, capacity), e))
  {
    var i1, i2, i3, i4 := EncodeInt32(corePoolSize), EncodeInt32(maxPoolSize),
                          EncodeInt32(keepAliveSeconds), EncodeInt32(capacity);
    HoldsSplit(s, at, i1 + i2 + i3, i4, at + 12);
    HoldsSplit(s, at, i1 + i2, i3, at + 8);
    HoldsSplit(s, at, i1, i2, at + 4);
    Int32RoundTrip(corePoolSize, s, at);
    Int32RoundTrip(maxPoolSize, s, at + 4);
    Int32RoundTrip(keepAliveSeconds, s, at + 8);
    Int32RoundTrip(capacity, s, at + 12);
  }

  /** Where a record was written, each of readData's reads finds the value
      written for it, the type name included, at the position the previous
      read stopped: `p`, `q` and `e` are where the name, the ints and the
      type name end. */
  lemma RecordFields(name: JString, corePoolSize: Int32, maxPoolSize: Int32,
                     keepAliveSeconds: Int32, capacity: Int32, typeName: JString,
                     s: seq<byte>, at: nat, p: nat, q: nat, e: nat)
    requires RecordBytes(name, corePoolSize, maxPoolSize, keepAliveSeconds, capacity, typeName).Ok?
    requires Holds(s, at, RecordBytes(name, corePoolSize, maxPoolSize, keepAliveSeconds, capacity, typeName).value)
    requires p == at + |EncodeUtf(name).value| && q == p + 16 && e == q + |EncodeUtf(typeName).value|
    ensures DecodeUtf(s, at) == Ok(Read(name, p))
    ensures DecodeSizes(s, p) == Ok(Read((corePoolSize, maxPoolSize, keepAliveSeconds, capacity), q))
    ensures DecodeUtf(s, q) == Ok(Read(typeName, e))
  {
    var n := EncodeUtf(name).value;
    var t := EncodeUtf(typeName).value;
    var sizes := EncodeInt32(corePoolSize) + EncodeInt32(maxPoolSize)
                 + EncodeInt32(keepAliveSeconds) + EncodeInt32(capacity);
    assert RecordBytes(name, corePoolSize, maxPoolSize, keepAliveSeconds, capacity, typeName).value
           == n + sizes + t;
    HoldsSplit(s, at, n + sizes, t, q);
    HoldsSplit(s, at, n, sizes, p);
    UtfRoundTrip(name, s, at, p);
    SizesRoundTrip(corePoolSize, maxPoolSize, keepAliveSeconds, capacity, s, p, q);
    UtfRoundTrip(typeName, s, q, e);
  }

  /** readData recovers all six fields that writeData wrote, valid or not,
      and stops just past them. */
  lemma ConfigRoundTrip(c: ExecutorSettings, s: seq<byte>, at: nat, e: nat)
    requires EncodeConfig(c).Ok? && Holds(s, at, EncodeConfig(c).value)
    requires e == at + |EncodeConfig(c).value|
    ensures DecodeConfig(s, at) == Ok(Read(c, e))
  {
    var typeName := c.executorType.Name();
    assert EncodeConfig(c) == RecordBytes(c.name, c.corePoolSize, c.maxPoolSize, c.keepAliveSeconds, c.capacity,
                                          typeName);
    var p := at + |EncodeUtf(c.name).value|;
    RecordFields(c.name, c.corePoolSize, c.maxPoolSize, c.keepAliveSeconds, c.capacity, typeName, s, at,
                 p, p + 16, e);
    DecodeConfigSteps(s, at, c.name, (c.corePoolSize, c.maxPoolSize, c.keepAliveSeconds, c.capacity),
                      typeName, p, p + 16, e);
    ValueOfName(c.executorType);
  }

  /** A record whose type string is not one of the three names is rejected
      with valueOf's error, and it is the only way a well-formed record
      fails. */
  lemma UnknownTypeNameRejected(name: JString, corePoolSize: Int32, maxPoolSize: Int32,
                                keepAliveSeconds: Int32, capacity: Int32, typeName: JString,
                                s: seq<byte>, at: nat)
    requires RecordBytes(name, corePoolSize, maxPoolSize, keepAliveSeconds, capacity, typeName).Ok?
    requires Holds(s, at, RecordBytes(name, corePoolSize, maxPoolSize, keepAliveSeconds, capacity, typeName).value)
    ensures DecodeConfig(s, at).Err? <==> !IsTypeName(typeName)
    ensures !IsTypeName(typeName) ==> DecodeConfig(s, at) == Err(UnknownEnumName)
  {
    var p := at + |EncodeUtf(name).value|;
    var e := p + 16 + |EncodeUtf(typeName).value|;
    RecordFields(name, corePoolSize, maxPoolSize, keepAliveSeconds, capacity, typeName, s, at, p, p + 16, e);
    DecodeConfigSteps(s, at, name, (corePoolSize, maxPoolSize, keepAliveSeconds, capacity),
                      typeName, p, p + 16, e);
  }

  /** readData does not validate: a record carrying sizes every validating
      setter would reject is read back as it stands. */
  lemma ReadDataSkipsValidation(c: ExecutorSettings, s: seq<byte>, at: nat)
    requires EncodeConfig(c).Ok? && Holds(s, at, EncodeConfig(c).value) && !c.SizesValid()
    ensures DecodeConfig(s, at).Ok?
    ensures !DecodeConfig(s, at).value.item.SizesValid()
  {
    ConfigRoundTrip(c, s, at, at + |EncodeConfig(c).value|);
  }

  /** A config sent to another member: one side runs writeData, the other
      runs readData on the bytes into a fresh default config. Unless the name
      is over writeUTF's limit, the copy has all six fields of the original. */
  method SendConfig(config: ExecutorConfig) returns (copy: ExecutorConfig, o: Outcome<IoError>)
    ensures o.Fail? <==> EncodeUtf(config.name).Err?
    ensures o.Fail? ==> o.error == UtfTooLong
    ensures o.Pass? ==> copy.Settings() == config.Settings()
  {
    var out := new ByteOutput();
    o := config.WriteData(out);
    copy := new ExecutorConfig();
    if o.Fail? {
      return;
    }
    ghost var w := EncodeConfig(config.Settings()).value;
    var input := new ByteInput(out.bytes);
    HoldsSlice(input.buf, 0, w);
    ConfigRoundTrip(config.Settings(), input.buf, 0, |w|);
    o := copy.ReadData(input);
  }

  /** A client: the fail-fast setters keep a default config valid. */
  method ConfigureExample()
  {
    var config := new ExecutorConfig();
    assert config.Valid();
    var r := config.SetMaxPoolSize(0);
    assert r.Err? && config.maxPoolSize == 40;
    r := config.SetKeepAliveSeconds(-1);
    assert r.Err? && config.keepAliveSeconds == 300;
    r := config.SetCorePoolSize(0);
    assert r.Ok? && r.value == config && config.corePoolSize == 0;
    config.SetCapacity(-5);
    assert config.Valid() && config.capacity == -5;
  }
}
