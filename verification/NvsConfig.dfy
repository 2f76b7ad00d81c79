/** The write-behind settings cache of nvs_config.c: setters that update the cache and
    queue the change, one task that writes the store, and the load loop. */
module NvsConfig {
  import opened Wrappers

  const QUEUE_LENGTH: nat := 50
  const NVS_KEY_NAME_MAX_SIZE: nat := 16  // with the terminator

  datatype Kind = KindStr | KindU16 | KindI32 | KindU64 | KindBool

  datatype Value = Str(s: string) | U16(n: nat) | I32(i: int) | U64(m: nat) | Bool(b: bool)

  datatype Setting = Setting(name: string, kind: Kind, arraySize: nat, defaultValue: Value)

  type Table = seq<Setting>

  predicate TypeOk(v: Value, kind: Kind) {
    match v
    case Str(_) => kind.KindStr?
    case U16(_) => kind.KindU16?
    case I32(_) => kind.KindI32?
    case U64(_) => kind.KindU64?
    case Bool(_) => kind.KindBool?
  }

  predicate TableOk(table: Table) {
    forall k :: 0 <= k < |table| ==> TypeOk(table[k].defaultValue, table[k].kind)
  }

  /** get_array_size. */
  function CountOf(st: Setting): nat {
    if st.arraySize > 0 then st.arraySize else 1
  }

  predicate IsCell(table: Table, key: nat, index: nat) {
    key < |table| && index < CountOf(table[key])
  }

  lemma CellsExact(table: Table, key: nat, index: nat)
    requires key < |table|
    ensures IsCell(table, key, index) <==> index < table[key].arraySize || (table[key].arraySize == 0 && index == 0)
  {
  }

  // ---- the store ------------------------------------------------------------------

  /** What the store keeps under a name; a value read as another type is not found. */
  datatype Stored = StoredStr(s: string) | StoredU16(n: nat) | StoredI32(i: int) | StoredU64(m: nat)

  type Store = map<string, Stored>

  /** The store call nvs_task makes for a value. */
  function ToStored(v: Value): Stored {
    match v
    case Str(s) => StoredStr(s)
    case U16(n) => StoredU16(n)
    case I32(i) => StoredI32(i)
    case U64(m) => StoredU64(m)
    case Bool(b) => StoredU16(if b then 1 else 0)
  }

  lemma BooleansStored()
    ensures ToStored(Bool(true)) == StoredU16(1) && ToStored(Bool(false)) == StoredU16(0)
  {
  }

  function Find(store: Store, name: string): Option<Stored> {
    if name in store then Some(store[name]) else None
  }

  /** The value the load loop takes from the store, if it finds one: a string counts only
      when its length with the terminator exceeds one. */
  function Found(kind: Kind, stored: Option<Stored>): Option<Value> {
    match (kind, stored)
    case (KindStr, Some(StoredStr(s))) => if |s| + 1 > 1 then Some(Str(s)) else None
    case (KindU16, Some(StoredU16(n))) => Some(U16(n))
    case (KindI32, Some(StoredI32(i))) => Some(I32(i))
    case (KindU64, Some(StoredU64(m))) => Some(U64(m))
    case (KindBool, Some(StoredU16(n))) => Some(Bool(n != 0))
    case _ => None
  }

  /** The cell the load loop fills. */
  function LoadValue(st: Setting, stored: Option<Stored>): Value {
    match Found(st.kind, stored)
    case Some(v) => v
    case None => st.defaultValue
  }

  /** A value the store can give back: every one but the empty string where the default is
      another string. */
  predicate Durable(st: Setting, v: Value) {
    v == Str("") ==> st.defaultValue == Str("")
  }

  lemma StoredDurable(st: Setting, v: Value)
    requires TypeOk(v, st.kind) && TypeOk(st.defaultValue, st.kind)
    ensures LoadValue(st, Some(ToStored(v))) == v <==> Durable(st, v)
  {
  }

  lemma LoadedDurable(st: Setting, stored: Option<Stored>)
    requires TypeOk(st.defaultValue, st.kind)
    ensures Durable(st, LoadValue(st, stored)) && TypeOk(LoadValue(st, stored), st.kind)
  {
  }

  // ---- key names -------------------------------------------------------------------

  /** The width get_nvs_key_name computes from the array size. */
  function Width(t: nat, width: nat): nat
    requires width <= 5
    decreases 5 - width
  {
    if t >= 10 && width < 5 then Width(t / 10, width + 1) else width
  }

  /** Decimal digits, as printf writes them. */
  function Decimal(n: nat): (s: string)
    ensures |s| > 0 && forall i :: 0 <= i < |s| ==> '0' <= s[i] <= '9'
  {
    var d := ['0', '1', '2', '3', '4', '5', '6', '7', '8', '9'][n % 10];
    if n < 10 then [d] else Decimal(n / 10) + [d]
  }

  /** "%0*d". */
  function Padded(width: nat, n: nat): string {
    var s := Decimal(n);
    if |s| < width then seq(width - |s|, _ => '0') + s else s
  }

  /** The name before snprintf cuts it. */
  function FullName(st: Setting, index: nat): string {
    if st.arraySize > 0 then st.name + "_" + Padded(Width(st.arraySize - 1, 1), index + 1) else st.name
  }

  /** get_nvs_key_name. */
  function KeyName(st: Setting, index: nat): string {
    var full := FullName(st, index);
    if |full| >= NVS_KEY_NAME_MAX_SIZE then full[..NVS_KEY_NAME_MAX_SIZE - 1] else full
  }

  function NumberIn(s: string): nat {
    if |s| == 0 then 0
    else NumberIn(s[..|s| - 1]) * 10 + if '0' <= s[|s| - 1] <= '9' then (s[|s| - 1] - '0') as int else 0
  }

  lemma {:induction false} NumberOfDecimal(n: nat)
    ensures NumberIn(Decimal(n)) == n
  {
    var d := ['0', '1', '2', '3', '4', '5', '6', '7', '8', '9'][n % 10];
    assert (d - '0') as int == n % 10;
    if n < 10 {
      assert [d][..0] == [];
    } else {
      NumberOfDecimal(n / 10);
      assert (Decimal(n / 10) + [d])[..|Decimal(n / 10)|] == Decimal(n / 10);
    }
  }

  lemma {:induction false} NumberOfZeros(z: nat, s: string)
    ensures NumberIn(seq(z, _ => '0') + s) == NumberIn(s)
  {
    var zs := seq(z, _ => '0');
    if |s| > 0 {
      assert (zs + s)[..|zs + s| - 1] == zs + s[..|s| - 1];
      NumberOfZeros(z, s[..|s| - 1]);
    } else if z > 0 {
      assert (zs + s)[..z - 1] == seq(z - 1, _ => '0') + s;
      NumberOfZeros(z - 1, s);
    } else {
      assert zs + s == s;
    }
  }

  lemma NumberOfPadded(width: nat, n: nat)
    ensures NumberIn(Padded(width, n)) == n
  {
    hide Decimal, NumberIn;
    NumberOfDecimal(n);
    if |Decimal(n)| < width {
      NumberOfZeros(width - |Decimal(n)|, Decimal(n));
    }
  }

  /** The width is that of the last index counted from zero, five digits at most. */
  lemma {:induction false} WidthExact(t: nat, width: nat)
    requires 0 < width <= 5
    ensures Width(t, width) == if width - 1 + |Decimal(t)| < 5 then width - 1 + |Decimal(t)| else 5
    decreases 5 - width
  {
    if t >= 10 && width < 5 {
      WidthExact(t / 10, width + 1);
    }
  }

  lemma ShortName(st: Setting, index: nat, digits: string)
    requires st.arraySize > 0 && Padded(Width(st.arraySize - 1, 1), index + 1) == digits
    requires |st.name| + 1 + |digits| < 16
    ensures KeyName(st, index) == st.name + "_" + digits
  {
    hide Padded, Width;
  }

  /** Indices count from one, in as many digits as the last one counted from zero has. */
  lemma KeyNameExamples(kind: Kind, v: Value)
    ensures KeyName(Setting("pool", kind, 3, v), 0) == "pool_1"
    ensures KeyName(Setting("pool", kind, 12, v), 6) == "pool_07"
  {
    hide *;
    OneDigit();
    ShortName(Setting("pool", kind, 3, v), 0, "1");
    TwoDigits();
    ShortName(Setting("pool", kind, 12, v), 6, "07");
  }

  lemma OneDigit()
    ensures Padded(Width(2, 1), 1) == "1"
  {
    assert Width(2, 1) == 1 && Decimal(1) == "1";
    hide Width, Decimal;
  }

  lemma TwoDigits()
    ensures Padded(Width(11, 1), 7) == "07"
  {
    assert Width(11, 1) == 2 && Decimal(7) == "7";
    hide Width, Decimal;
  }

  lemma KeyNameLimits(kind: Kind, v: Value)
    ensures KeyName(Setting("pool", kind, 0, v), 0) == "pool"
    ensures KeyName(Setting("fifteenletters_", kind, 3, v), 2) == "fifteenletters_"
  {
  }

  /** The names of one array setting are distinct as long as none of them is cut. */
  lemma IndexedNamesDistinct(st: Setting, i: nat, j: nat)
    requires st.arraySize > 0 && i != j
    requires |FullName(st, i)| < NVS_KEY_NAME_MAX_SIZE && |FullName(st, j)| < NVS_KEY_NAME_MAX_SIZE
    ensures KeyName(st, i) != KeyName(st, j)
  {
    hide Width, Padded, NumberIn;
    var width := Width(st.arraySize - 1, 1);
    NumberOfPadded(width, i + 1);
    NumberOfPadded(width, j + 1);
    var prefix := st.name + "_";
    assert FullName(st, i)[|prefix|..] == Padded(width, i + 1);
    assert FullName(st, j)[|prefix|..] == Padded(width, j + 1);
  }

  /** No two cells share a name. */
  ghost predicate NamesInjective(table: Table) {
    forall k: nat, i: nat, l: nat, j: nat ::
      IsCell(table, k, i) && IsCell(table, l, j) && KeyName(table[k], i) == KeyName(table[l], j) ==> k == l && i == j
  }

  // A table whose names can be checked to be distinct.

  predicate AllDigits(s: string) {
    |s| > 0 && forall i :: 0 <= i < |s| ==> '0' <= s[i] <= '9'
  }

  /** name reads like an indexed name of base. */
  predicate Indexes(name: string, base: string) {
    |name| > |base| && name[..|base|] == base && name[|base|] == '_' && AllDigits(name[|base| + 1..])
  }

  /** Names fit without being cut, settings are named differently, and no plain setting is
      named like an element of an array setting. */
  ghost predicate NamesChecked(table: Table) {
    && (forall k: nat, i: nat :: IsCell(table, k, i) ==> |FullName(table[k], i)| < NVS_KEY_NAME_MAX_SIZE)
    && (forall k, l :: 0 <= k < l < |table| ==> table[k].name != table[l].name)
    && (forall k, l :: 0 <= k < |table| && 0 <= l < |table| && table[k].arraySize == 0 && table[l].arraySize > 0 ==>
          !Indexes(table[k].name, table[l].name))
  }

  lemma PaddedDigits(width: nat, n: nat)
    ensures AllDigits(Padded(width, n))
  {
    var s := Decimal(n);
    if |s| < width {
      var z := seq(width - |s|, _ => '0');
      assert forall i :: 0 <= i < |z + s| ==> (z + s)[i] == if i < |z| then z[i] else s[i - |z|];
    }
  }

  lemma FullNameIndexes(st: Setting, i: nat)
    requires st.arraySize > 0
    ensures Indexes(FullName(st, i), st.name)
  {
    var digits := Padded(Width(st.arraySize - 1, 1), i + 1);
    PaddedDigits(Width(st.arraySize - 1, 1), i + 1);
    hide Padded, Width, AllDigits;
    var full := st.name + "_" + digits;
    assert full[..|st.name|] == st.name && full[|st.name| + 1..] == digits;
  }

  lemma DigitAfter(name: string, base: string, p: nat)
    requires Indexes(name, base) && |base| < p < |name|
    ensures name[p] != '_'
  {
    assert name[|base| + 1..][p - |base| - 1] == name[p];
  }

  /** The last underscore of an indexed name ends its base. */
  lemma BaseUnique(name: string, a: string, b: string)
    requires Indexes(name, a) && Indexes(name, b)
    ensures a == b
  {
    if |a| < |b| {
      DigitAfter(name, a, |b|);
    } else if |b| < |a| {
      DigitAfter(name, b, |a|);
    }
  }

  lemma SameFullName(table: Table, k: nat, i: nat, l: nat, j: nat)
    requires NamesChecked(table) && IsCell(table, k, i) && IsCell(table, l, j)
    requires FullName(table[k], i) == FullName(table[l], j)
    ensures k == l
  {
    var a, b := table[k], table[l];
    if a.arraySize > 0 { FullNameIndexes(a, i); }
    if b.arraySize > 0 { FullNameIndexes(b, j); }
    if a.arraySize > 0 && b.arraySize > 0 { BaseUnique(FullName(a, i), a.name, b.name); }
    hide Padded, Width, Indexes;
  }

  /** Such a table has no two cells of one name. */
  lemma CheckedInjective(table: Table)
    requires NamesChecked(table)
    ensures NamesInjective(table)
  {
    forall k: nat, i: nat, l: nat, j: nat
      | IsCell(table, k, i) && IsCell(table, l, j) && KeyName(table[k], i) == KeyName(table[l], j)
      ensures k == l && i == j
    {
      SameFullName(table, k, i, l, j);
      if i != j && table[k].arraySize > 0 { IndexedNamesDistinct(table[k], i, j); }
    }
  }

  // ---- the cache as a state machine -----------------------------------------------------

  datatype Update = Update(key: nat, index: nat, value: Value)

  /** Where the one setter holding nvs_update_mutex stands: a string setter has compared
      but not yet written, or an update is written to the cache but not yet queued. */
  datatype Setter = Idle | Compared(u: Update) | Pending(u: Update)

  datatype State = State(values: seq<seq<Value>>, isSet: seq<bool>, setter: Setter,
                         queue: seq<Update>, inHand: Option<Update>, store: Store)

  /** Set starts a setter; Write is the second critical section of a string setter; Send
      is xQueueSend; Receive and Save are the two halves of a turn of nvs_task. */
  datatype Event = Set(u: Update) | Write | Send | Receive | Save

  predicate ValidUpdate(table: Table, u: Update) {
    IsCell(table, u.key, u.index) && TypeOk(u.value, table[u.key].kind)
  }

  predicate WellFormed(table: Table, s: State) {
    TableOk(table) && |s.values| == |s.isSet| == |table| &&
    (forall k :: 0 <= k < |table| ==> |s.values[k]| == CountOf(table[k])) &&
    (forall k, i :: 0 <= k < |table| && 0 <= i < |s.values[k]| ==> TypeOk(s.values[k][i], table[k].kind)) &&
    (s.setter.Idle? || ValidUpdate(table, s.setter.u)) &&
    (forall q :: 0 <= q < |s.queue| ==> ValidUpdate(table, s.queue[q])) &&
    |s.queue| <= QUEUE_LENGTH && (s.inHand.Some? ==> ValidUpdate(table, s.inHand.value))
  }

  function LoadRow(st: Setting, store: Store): (row: seq<Value>)
    ensures |row| == CountOf(st)
  {
    seq(CountOf(st), i requires 0 <= i < CountOf(st) => LoadValue(st, Find(store, KeyName(st, i))))
  }

  function LoadValues(table: Table, store: Store): (values: seq<seq<Value>>)
    ensures |values| == |table|
    ensures forall k :: 0 <= k < |table| ==> values[k] == LoadRow(table[k], store)
  {
    seq(|table|, k requires 0 <= k < |table| => LoadRow(table[k], store))
  }

  /** Whether the load loop finds any value of a setting. */
  predicate AnyFound(st: Setting, store: Store) {
    exists i :: 0 <= i < CountOf(st) && Found(st.kind, Find(store, KeyName(st, i))).Some?
  }

  /** The load loop of nvs_config_init. */
  function Loaded(table: Table, store: Store): State {
    State(LoadValues(table, store), seq(|table|, k requires 0 <= k < |table| => AnyFound(table[k], store)),
          Idle, [], None, store)
  }

  /** The store holds a value of this kind under name; an empty string is none. */
  predicate HoldsValue(kind: Kind, store: Store, name: string) {
    name in store &&
    match store[name]
    case StoredStr(s) => kind.KindStr? && s != ""
    case StoredU16(_) => kind.KindU16? || kind.KindBool?
    case StoredI32(_) => kind.KindI32?
    case StoredU64(_) => kind.KindU64?
  }

  /** A setting counts as set after the load if the store holds a value for one of its cells. */
  lemma LoadedIsSet(table: Table, store: Store, key: nat)
    requires key < |table|
    ensures Loaded(table, store).isSet[key] <==>
            exists i: nat :: IsCell(table, key, i) && HoldsValue(table[key].kind, store, KeyName(table[key], i))
  {
    hide KeyName, CountOf;
    var st := table[key];
    forall i: nat
      ensures HoldsValue(st.kind, store, KeyName(st, i)) <==> Found(st.kind, Find(store, KeyName(st, i))).Some? {
    }
  }

  function PutCache(s: State, u: Update): State
    requires u.key < |s.values| == |s.isSet| && u.index < |s.values[u.key]|
  {
    s.(values := s.values[u.key := s.values[u.key][u.index := u.value]],
       isSet := s.isSet[u.key := true], setter := Pending(u))
  }

  predicate Enabled(s: State, e: Event) {
    match e
    case Set(_) => s.setter.Idle?
    case Write => s.setter.Compared?
    case Send => s.setter.Pending? && |s.queue| < QUEUE_LENGTH
    case Receive => s.inHand.None? && |s.queue| > 0
    case Save => s.inHand.Some?
  }

  function Step(table: Table, s: State, e: Event): (t: State)
    requires WellFormed(table, s) && Enabled(s, e)
    ensures WellFormed(table, t)
  {
    match e
    case Set(u) =>
      if !ValidUpdate(table, u) then s
      else if s.values[u.key][u.index] == u.value && s.isSet[u.key] then s
      else if u.value.Str? then s.(setter := Compared(u))
      else PutCache(s, u)
    case Write => PutCache(s, s.setter.u)
    case Send => s.(setter := Idle, queue := s.queue + [s.setter.u])
    case Receive => s.(queue := s.queue[1..], inHand := Some(s.queue[0]))
    case Save =>
      var u := s.inHand.value;
      s.(inHand := None, store := s.store[KeyName(table[u.key], u.index) := ToStored(u.value)])
  }

  /** A setter waits for the queue exactly while fifty updates are in it. */
  lemma SendExact(table: Table, s: State)
    requires WellFormed(table, s) && s.setter.Pending?
    ensures Enabled(s, Send) <==> |s.queue| != 50
  {
  }

  predicate IsRun(table: Table, store: Store, events: seq<Event>)
    requires TableOk(table)
    decreases |events|, 0
  {
    |events| == 0 ||
    (IsRun(table, store, events[..|events| - 1]) &&
     Enabled(After(table, store, events[..|events| - 1]), events[|events| - 1]))
  }

  function After(table: Table, store: Store, events: seq<Event>): (s: State)
    requires TableOk(table) && IsRun(table, store, events)
    ensures WellFormed(table, s)
    decreases |events|, 1
  {
    if |events| == 0 then
      LoadedWellFormed(table, store);
      Loaded(table, store)
    else Step(table, After(table, store, events[..|events| - 1]), events[|events| - 1])
  }

  lemma LoadedWellFormed(table: Table, store: Store)
    requires TableOk(table)
    ensures WellFormed(table, Loaded(table, store))
  {
    var s := Loaded(table, store);
    forall k, i | 0 <= k < |table| && 0 <= i < |s.values[k]| ensures TypeOk(s.values[k][i], table[k].kind) {
      LoadedDurable(table[k], Find(store, KeyName(table[k], i)));
    }
  }

  // ---- what a set does ------------------------------------------------------------------------

  /** The updates' newest value of a cell, or base when there is none. */
  function Replay(base: Value, us: seq<Update>, key: nat, index: nat): Value {
    if |us| == 0 then base
    else
      var u := us[|us| - 1];
      if u.key == key && u.index == index then u.value else Replay(base, us[..|us| - 1], key, index)
  }

  lemma ReplaySnoc(base: Value, us: seq<Update>, u: Update, key: nat, index: nat)
    ensures Replay(base, us + [u], key, index) ==
            if u.key == key && u.index == index then u.value else Replay(base, us, key, index)
  {
    assert (us + [u])[..|us|] == us;
  }

  /** Cell and flag of u hold what it asks for, and nothing else in the cache has changed. */
  predicate Written(table: Table, s: State, u: Update, t: State)
    requires WellFormed(table, s) && WellFormed(table, t) && ValidUpdate(table, u)
  {
    && t.values[u.key][u.index] == u.value && t.isSet[u.key]
    && (forall k :: 0 <= k < |table| && k != u.key ==> t.values[k] == s.values[k] && t.isSet[k] == s.isSet[k])
    && (forall i :: 0 <= i < CountOf(table[u.key]) && i != u.index ==>
          t.values[u.key][i] == s.values[u.key][i])
  }

  /** Whatever else is under way, a set is in the cache when it returns; a string is there
      already, or after the second critical section, which its setter then has before it. */
  lemma ReadYourWrite(table: Table, s: State, u: Update)
    requires WellFormed(table, s) && s.setter.Idle? && ValidUpdate(table, u)
    ensures var t := Step(table, s, Set(u));
            if u.value.Str? && t != s
            then t == s.(setter := Compared(u)) && Enabled(t, Write) && Written(table, s, u, Step(table, t, Write))
            else Written(table, s, u, t)
  {
    hide KeyName;
  }

  /** What the newest set of a run asks for. */
  function Asked(events: seq<Event>): Option<Update> {
    if |events| == 0 then None
    else match events[|events| - 1]
         case Set(u) => Some(u)
         case _ => Asked(events[..|events| - 1])
  }

  /** The sets a run completes, in order: those of scalars at once, those of strings at their
      second critical section. Keys, indices and types that do not exist are refused. */
  function Completed(table: Table, events: seq<Event>): seq<Update> {
    if |events| == 0 then []
    else
      var before := events[..|events| - 1];
      Completed(table, before) +
      match events[|events| - 1]
      case Set(u) => if ValidUpdate(table, u) && !u.value.Str? then [u] else []
      case Write => if Asked(before).Some? then [Asked(before).value] else []
      case _ => []
  }

  predicate SetsKey(us: seq<Update>, key: nat) {
    exists q :: 0 <= q < |us| && us[q].key == key
  }

  /** Each cell holds the value of the last set of that cell, or what was loaded; a setting is
      set when it was found in the store or set since. */
  ghost predicate FollowsSets(table: Table, start: State, us: seq<Update>, s: State)
    requires WellFormed(table, start) && WellFormed(table, s)
  {
    && (forall k: nat, i: nat :: IsCell(table, k, i) ==> s.values[k][i] == Replay(start.values[k][i], us, k, i))
    && (forall k: nat :: k < |table| ==> (s.isSet[k] <==> start.isSet[k] || SetsKey(us, k)))
  }

  lemma WrittenFollows(table: Table, start: State, us: seq<Update>, s: State, u: Update, t: State)
    requires WellFormed(table, start) && WellFormed(table, s) && WellFormed(table, t) && ValidUpdate(table, u)
    requires FollowsSets(table, start, us, s) && Written(table, s, u, t)
    ensures FollowsSets(table, start, us + [u], t)
  {
    forall k: nat, i: nat | IsCell(table, k, i)
      ensures t.values[k][i] == Replay(start.values[k][i], us + [u], k, i) {
      ReplaySnoc(start.values[k][i], us, u, k, i);
    }
    hide WellFormed, Replay;
    forall k: nat | k < |table| ensures t.isSet[k] <==> start.isSet[k] || SetsKey(us + [u], k) {
      KeySnoc(us, u, k);
    }
  }

  lemma KeySnoc(us: seq<Update>, u: Update, key: nat)
    ensures SetsKey(us + [u], key) <==> u.key == key || SetsKey(us, key)
  {
    if SetsKey(us, key) {
      var q :| 0 <= q < |us| && us[q].key == key;
      assert (us + [u])[q].key == key;
    }
    assert (us + [u])[|us|] == u;
  }

  /** What the setter between its two critical sections has asked for. */
  predicate SetterAsked(s: State, events: seq<Event>) {
    s.setter.Compared? ==> Asked(events) == Some(s.setter.u)
  }

  lemma StepFollows(table: Table, start: State, s: State, before: seq<Event>, e: Event, events: seq<Event>)
    requires WellFormed(table, start) && WellFormed(table, s) && Enabled(s, e)
    requires |events| > 0 && events[..|events| - 1] == before && events[|events| - 1] == e
    requires SetterAsked(s, before) && FollowsSets(table, start, Completed(table, before), s)
    ensures var t := Step(table, s, e);
            SetterAsked(t, events) && FollowsSets(table, start, Completed(table, events), t)
  {
    var us, t := Completed(table, before), Step(table, s, e);
    assert us + [] == us;
    match e
    case Set(u) =>
      if ValidUpdate(table, u) && !u.value.Str? {
        ReadYourWrite(table, s, u);
        hide Step, FollowsSets;
        WrittenFollows(table, start, us, s, u, t);
      }
    case Write =>
      WritePuts(table, s);
      hide Step, FollowsSets;
      WrittenFollows(table, start, us, s, s.setter.u, t);
    case _ => hide KeyName;
  }

  lemma WritePuts(table: Table, s: State)
    requires WellFormed(table, s) && s.setter.Compared?
    ensures Written(table, s, s.setter.u, Step(table, s, Write)) && !Step(table, s, Write).setter.Compared?
  {
  }

  /** Over every run, by the list of events alone: no set is lost or held back, whatever the
      queue and the writer task are doing. */
  lemma {:induction false} RunFollowsSets(table: Table, store: Store, events: seq<Event>)
    requires TableOk(table) && IsRun(table, store, events)
    ensures SetterAsked(After(table, store, events), events)
    ensures WellFormed(table, Loaded(table, store)) &&
            FollowsSets(table, Loaded(table, store), Completed(table, events), After(table, store, events))
  {
    LoadedWellFormed(table, store);
    if |events| > 0 {
      var before := events[..|events| - 1];
      RunFollowsSets(table, store, before);
      hide FollowsSets, SetterAsked, Completed, Loaded;
      StepFollows(table, Loaded(table, store), After(table, store, before), before, events[|events| - 1], events);
    }
  }

  // ---- updates in flight -------------------------------------------------------------------

  /** The updates between cache and store, oldest first. */
  function InFlight(s: State): seq<Update> {
    (if s.inHand.Some? then [s.inHand.value] else []) + s.queue + (if s.setter.Pending? then [s.setter.u] else [])
  }

  /** Saving the oldest update is replaying it first. */
  lemma {:induction false} ReplayCons(base: Value, u: Update, us: seq<Update>, key: nat, index: nat)
    ensures Replay(base, [u] + us, key, index) ==
            Replay(if u.key == key && u.index == index then u.value else base, us, key, index)
  {
    if |us| == 0 {
      assert [u] + us == [u] && [u][..0] == [];
    } else {
      assert ([u] + us)[..|us|] == [u] + us[..|us| - 1];
      ReplayCons(base, u, us[..|us| - 1], key, index);
    }
  }

  lemma InFlightSame(table: Table, s: State, e: Event)
    requires WellFormed(table, s) && Enabled(s, e) && (e.Send? || e.Receive?)
    ensures InFlight(Step(table, s, e)) == InFlight(s)
  {
  }

  // ---- coherence ----------------------------------------------------------------------------

  /** The stored value of a cell as the cache sees it: the value itself for as long as the
      store holds what was written for it, otherwise what loading gives. */
  ghost predicate Represents(table: Table, s: State, key: nat, index: nat, base: Value)
    requires IsCell(table, key, index)
  {
    var stored := Find(s.store, KeyName(table[key], index));
    TypeOk(base, table[key].kind) && (stored == Some(ToStored(base)) || base == LoadValue(table[key], stored))
  }

  ghost predicate CellCoherent(table: Table, s: State, key: nat, index: nat)
    requires IsCell(table, key, index)
    requires WellFormed(table, s)
  {
    exists base :: Represents(table, s, key, index, base) &&
      s.values[key][index] == Replay(base, InFlight(s), key, index)
  }

  lemma LoadedCoherent(table: Table, store: Store, key: nat, index: nat)
    requires TableOk(table) && IsCell(table, key, index)
    ensures WellFormed(table, Loaded(table, store)) && CellCoherent(table, Loaded(table, store), key, index)
  {
    LoadedWellFormed(table, store);
    var s := Loaded(table, store);
    LoadedDurable(table[key], Find(store, KeyName(table[key], index)));
    assert Represents(table, s, key, index, s.values[key][index]);
  }

  lemma PutCoherent(table: Table, s: State, u: Update, key: nat, index: nat)
    requires WellFormed(table, s) && !s.setter.Pending? && ValidUpdate(table, u) && IsCell(table, key, index)
    requires CellCoherent(table, s, key, index) && WellFormed(table, PutCache(s, u))
    ensures CellCoherent(table, PutCache(s, u), key, index)
  {
    hide KeyName;
    var t := PutCache(s, u);
    var base :| Represents(table, s, key, index, base) &&
      s.values[key][index] == Replay(base, InFlight(s), key, index);
    assert Represents(table, t, key, index, base);
    assert InFlight(t) == InFlight(s) + [u];
    ReplaySnoc(base, InFlight(s), u, key, index);
  }

  lemma SaveCoherent(table: Table, s: State, key: nat, index: nat)
    requires NamesInjective(table) && WellFormed(table, s) && s.inHand.Some? && IsCell(table, key, index)
    requires CellCoherent(table, s, key, index)
    ensures CellCoherent(table, Step(table, s, Save), key, index)
  {
    hide KeyName;
    var t, u := Step(table, s, Save), s.inHand.value;
    var base :| Represents(table, s, key, index, base) &&
      s.values[key][index] == Replay(base, InFlight(s), key, index);
    assert InFlight(s) == [u] + InFlight(t);
    ReplayCons(base, u, InFlight(t), key, index);
    var next := if u.key == key && u.index == index then u.value else base;
    assert Represents(table, t, key, index, next);
  }

  lemma StepCoherent(table: Table, s: State, e: Event, key: nat, index: nat)
    requires NamesInjective(table) && WellFormed(table, s) && Enabled(s, e) && IsCell(table, key, index)
    requires CellCoherent(table, s, key, index)
    ensures CellCoherent(table, Step(table, s, e), key, index)
  {
    hide KeyName, NamesInjective;
    var t := Step(table, s, e);
    match e
    case Save => SaveCoherent(table, s, key, index);
    case Write => PutCoherent(table, s, s.setter.u, key, index);
    case Set(u) =>
      if t.setter.Pending? && t != s {
        PutCoherent(table, s, u, key, index);
      } else {
        SameCoherent(table, s, t, key, index);
      }
    case _ =>
      InFlightSame(table, s, e);
      SameCoherent(table, s, t, key, index);
  }

  lemma SameCoherent(table: Table, s: State, t: State, key: nat, index: nat)
    requires WellFormed(table, s) && WellFormed(table, t) && IsCell(table, key, index)
    requires CellCoherent(table, s, key, index)
    requires t.values == s.values && t.store == s.store && InFlight(t) == InFlight(s)
    ensures CellCoherent(table, t, key, index)
  {
    hide KeyName;
    var base :| Represents(table, s, key, index, base) &&
      s.values[key][index] == Replay(base, InFlight(s), key, index);
    assert Represents(table, t, key, index, base);
  }

  /** Coherence in every interleaving: replaying the update in hand, the queue and the
      setter's pending update over the stored value gives the cached value of each cell. */
  lemma {:induction false} RunCoherent(table: Table, store: Store, events: seq<Event>, key: nat, index: nat)
    requires TableOk(table) && NamesInjective(table) && IsRun(table, store, events) && IsCell(table, key, index)
    ensures CellCoherent(table, After(table, store, events), key, index)
  {
    hide NamesInjective, CellCoherent;
    if |events| == 0 {
      LoadedCoherent(table, store, key, index);
    } else {
      RunCoherent(table, store, events[..|events| - 1], key, index);
      StepCoherent(table, After(table, store, events[..|events| - 1]), events[|events| - 1], key, index);
    }
  }

  predicate Drained(s: State) {
    s.setter.Idle? && s.queue == [] && s.inHand.None?
  }

  /** Once the updates have drained, rerunning the load loop reproduces a cell exactly when
      its cached value is one the store can give back. */
  lemma ReloadExact(table: Table, store: Store, events: seq<Event>, key: nat, index: nat)
    requires TableOk(table) && NamesInjective(table) && IsRun(table, store, events) && IsCell(table, key, index)
    requires Drained(After(table, store, events))
    ensures var s := After(table, store, events);
            Loaded(table, s.store).values[key][index] == s.values[key][index] <==>
            Durable(table[key], s.values[key][index])
  {
    hide KeyName, NamesInjective, IsRun, After, Durable;
    RunCoherent(table, store, events, key, index);
    var s := After(table, store, events);
    var base :| Represents(table, s, key, index, base) &&
      s.values[key][index] == Replay(base, InFlight(s), key, index);
    assert InFlight(s) == [];
    StoredDurable(table[key], base);
    LoadedDurable(table[key], Find(s.store, KeyName(table[key], index)));
  }

  /** So with no string setting whose default is not empty holding an empty string, the
      whole cache comes back. */
  lemma ReloadReproduces(table: Table, store: Store, events: seq<Event>)
    requires TableOk(table) && NamesInjective(table) && IsRun(table, store, events)
    requires Drained(After(table, store, events))
    requires var s := After(table, store, events);
             forall k: nat, i: nat :: IsCell(table, k, i) ==> Durable(table[k], s.values[k][i])
    ensures Loaded(table, After(table, store, events).store).values == After(table, store, events).values
  {
    hide KeyName, NamesInjective, IsRun, After, Durable, LoadRow;
    var s := After(table, store, events);
    var t := Loaded(table, s.store);
    forall k | 0 <= k < |table| ensures t.values[k] == s.values[k] {
      forall i | 0 <= i < CountOf(table[k]) ensures t.values[k][i] == s.values[k][i] {
        assert IsCell(table, k, i);
        ReloadExact(table, store, events, k, i);
      }
    }
  }

  // ---- where it fails -------------------------------------------------------------------------

  lemma RunSnoc(table: Table, store: Store, events: seq<Event>, e: Event)
    requires TableOk(table) && IsRun(table, store, events) && Enabled(After(table, store, events), e)
    ensures IsRun(table, store, events + [e])
    ensures After(table, store, events + [e]) == Step(table, After(table, store, events), e)
  {
    hide Step;
    assert (events + [e])[..|events|] == events;
  }

  /** An update has gone all the way from the setter to the store. */
  ghost predicate Saved(table: Table, s: State, u: Update, t: State)
    requires WellFormed(table, s) && ValidUpdate(table, u)
  {
    && Drained(t) && t.store == s.store[KeyName(table[u.key], u.index) := ToStored(u.value)]
    && t.values == s.values[u.key := s.values[u.key][u.index := u.value]]
    && t.isSet == s.isSet[u.key := true]
  }

  /** From a drained state a run can save any update that changes its cell. */
  lemma SaveOn(table: Table, store: Store, before: seq<Event>, u: Update) returns (events: seq<Event>)
    requires TableOk(table) && IsRun(table, store, before) && ValidUpdate(table, u)
    requires var s := After(table, store, before);
             Drained(s) && !(s.values[u.key][u.index] == u.value && s.isSet[u.key])
    ensures IsRun(table, store, events)
    ensures Saved(table, After(table, store, before), u, After(table, store, events))
  {
    hide IsRun, After, KeyName;
    events := before;
    ghost var s := After(table, store, events);
    RunSnoc(table, store, events, Set(u));
    events := events + [Set(u)];
    if u.value.Str? {
      RunSnoc(table, store, events, Write);
      events := events + [Write];
    }
    assert After(table, store, events) == PutCache(s, u);
    RunSnoc(table, store, events, Send);
    events := events + [Send];
    RunSnoc(table, store, events, Receive);
    events := events + [Receive];
    RunSnoc(table, store, events, Save);
    events := events + [Save];
  }

  lemma FreshStart(table: Table)
    requires TableOk(table)
    ensures IsRun(table, map[], []) && Drained(After(table, map[], []))
    ensures var s := After(table, map[], []);
            s.store == map[] &&
            forall k: nat, i: nat :: IsCell(table, k, i) ==> !s.isSet[k] && s.values[k][i] == table[k].defaultValue
  {
    hide KeyName;
    forall k | 0 <= k < |table| ensures !AnyFound(table[k], map[]) {}
  }

  /** Any string setting with a default loses an empty string over a reload. */
  lemma EmptyStringLost(table: Table, key: nat, index: nat) returns (events: seq<Event>)
    requires TableOk(table) && NamesInjective(table) && IsCell(table, key, index)
    requires table[key].kind.KindStr? && table[key].defaultValue != Str("")
    ensures IsRun(table, map[], events)
    ensures var s := After(table, map[], events);
            Drained(s) && s.values[key][index] == Str("") && Loaded(table, s.store).values[key][index] != Str("")
  {
    FreshStart(table);
    events := SaveOn(table, map[], [], Update(key, index, Str("")));
    ReloadExact(table, map[], events, key, index);
    hide IsRun, After, KeyName, NamesInjective;
  }

  /** Two different values of each kind, neither of them the empty string. */
  function Sample(kind: Kind, high: bool): (v: Value)
    ensures TypeOk(v, kind)
  {
    match kind
    case KindStr => Str(if high then "b" else "a")
    case KindU16 => U16(if high then 1 else 0)
    case KindI32 => I32(if high then 1 else 0)
    case KindU64 => U64(if high then 1 else 0)
    case KindBool => Bool(high)
  }

  /** A cell that holds one sample while the store holds the opposite one, of whatever kind,
      under its name cannot be explained from the store. */
  lemma LeftBehind(table: Table, s: State, key: nat, index: nat, kind: Kind, high: bool)
    requires WellFormed(table, s) && IsCell(table, key, index) && Drained(s)
    requires Find(s.store, KeyName(table[key], index)) == Some(ToStored(Sample(kind, high)))
    requires s.values[key][index] == Sample(table[key].kind, !high) != table[key].defaultValue
    ensures !CellCoherent(table, s, key, index)
  {
    hide KeyName;
    assert InFlight(s) == [];
  }

  /** The same for two cells of one setting when one is still at its default. */
  lemma LeftAtDefault(table: Table, s: State, key: nat, index: nat, high: bool)
    requires WellFormed(table, s) && IsCell(table, key, index) && Drained(s)
    requires Find(s.store, KeyName(table[key], index)) == Some(ToStored(Sample(table[key].kind, high)))
    requires s.values[key][index] == table[key].defaultValue != Sample(table[key].kind, high)
    ensures !CellCoherent(table, s, key, index)
  {
    hide KeyName;
    assert InFlight(s) == [];
  }

  /** Without distinct names coherence fails: of two cells with one name, of whatever kinds,
      saving one leaves the other behind. */
  lemma SharedNameBreaks(table: Table, k: nat, i: nat, l: nat, j: nat) returns (events: seq<Event>)
    requires TableOk(table) && IsCell(table, k, i) && IsCell(table, l, j) && (k != l || i != j)
    requires KeyName(table[k], i) == KeyName(table[l], j)
    ensures IsRun(table, map[], events)
    ensures !CellCoherent(table, After(table, map[], events), l, j)
  {
    hide IsRun, After, KeyName, CellCoherent;
    if k == l {
      events := OneSettingBreaks(table, k, i, j);
    } else {
      events := TwoSettingsBreak(table, k, i, l, j);
    }
  }

  /** The sample that a value is not. */
  function Unlike(kind: Kind, v: Value): (high: bool)
    ensures Sample(kind, high) != v
  {
    Sample(kind, false) == v
  }

  lemma OneSettingBreaks(table: Table, k: nat, i: nat, j: nat) returns (events: seq<Event>)
    requires TableOk(table) && IsCell(table, k, i) && IsCell(table, k, j) && i != j
    requires KeyName(table[k], i) == KeyName(table[k], j)
    ensures IsRun(table, map[], events)
    ensures !CellCoherent(table, After(table, map[], events), k, j)
  {
    FreshStart(table);
    hide IsRun, After, KeyName, CellCoherent, Sample, ToStored;
    var high := Unlike(table[k].kind, table[k].defaultValue);
    events := SaveOn(table, map[], [], Update(k, i, Sample(table[k].kind, high)));
    LeftAtDefault(table, After(table, map[], events), k, j, high);
  }

  lemma TwoSettingsBreak(table: Table, k: nat, i: nat, l: nat, j: nat) returns (events: seq<Event>)
    requires TableOk(table) && IsCell(table, k, i) && IsCell(table, l, j) && k != l
    requires KeyName(table[k], i) == KeyName(table[l], j)
    ensures IsRun(table, map[], events)
    ensures !CellCoherent(table, After(table, map[], events), l, j)
  {
    FreshStart(table);
    hide IsRun, After, KeyName, CellCoherent, Sample, ToStored;
    var high := !Unlike(table[l].kind, table[l].defaultValue);
    events := SaveOn(table, map[], [], Update(l, j, Sample(table[l].kind, !high)));
    events := SaveOn(table, map[], events, Update(k, i, Sample(table[k].kind, high)));
    LeftBehind(table, After(table, map[], events), l, j, table[k].kind, high);
  }

  ghost predicate AlwaysCoherent(table: Table)
    requires TableOk(table)
  {
    forall store: Store, events, key: nat, index: nat :: IsRun(table, store, events) && IsCell(table, key, index)
      ==> CellCoherent(table, After(table, store, events), key, index)
  }

  /** Coherence holds over all runs exactly for tables without shared names. */
  lemma CoherenceExact(table: Table)
    requires TableOk(table)
    ensures AlwaysCoherent(table) <==> NamesInjective(table)
  {
    hide IsRun, After, KeyName, CellCoherent;
    if NamesInjective(table) {
      forall store: Store, events, key: nat, index: nat | IsRun(table, store, events) && IsCell(table, key, index)
        ensures CellCoherent(table, After(table, store, events), key, index) {
        RunCoherent(table, store, events, key, index);
      }
    } else {
      var k: nat, i: nat, l: nat, j: nat :|
        IsCell(table, k, i) && IsCell(table, l, j) && KeyName(table[k], i) == KeyName(table[l], j) &&
        !(k == l && i == j);
      var events := SharedNameBreaks(table, k, i, l, j);
    }
  }

  // ---- power loss ------------------------------------------------------------------------------

  /** The updates a run has written to the cache, oldest first. */
  function Accepted(table: Table, store: Store, events: seq<Event>): seq<Update>
    requires TableOk(table) && IsRun(table, store, events)
  {
    if |events| == 0 then []
    else
      var before := events[..|events| - 1];
      var s, t := After(table, store, before), After(table, store, events);
      Accepted(table, store, before) + Newly(s, t)
  }

  /** A store after saving updates in order. */
  function Applied(table: Table, store: Store, us: seq<Update>): Store
    requires forall q :: 0 <= q < |us| ==> ValidUpdate(table, us[q])
  {
    if |us| == 0 then store
    else
      var u := us[|us| - 1];
      assert ValidUpdate(table, u);
      Applied(table, store, us[..|us| - 1])[KeyName(table[u.key], u.index) := ToStored(u.value)]
  }

  lemma AppliedNext(table: Table, store: Store, us: seq<Update>, n: nat)
    requires n < |us| && forall q :: 0 <= q < |us| ==> ValidUpdate(table, us[q])
    ensures Applied(table, store, us[..n + 1])
         == Applied(table, store, us[..n])[KeyName(table[us[n].key], us[n].index) := ToStored(us[n].value)]
  {
    hide KeyName;
    assert us[..n + 1][..n] == us[..n];
  }

  /** The store is the initial one with the first accepted updates saved in order, and the
      rest are in flight. */
  ghost predicate PrefixSaved(table: Table, store: Store, accepted: seq<Update>, s: State) {
    var n := |accepted| - |InFlight(s)|;
    && n >= 0 && (forall q :: 0 <= q < |accepted| ==> ValidUpdate(table, accepted[q]))
    && accepted[n..] == InFlight(s) && s.store == Applied(table, store, accepted[..n])
  }

  lemma PrefixSame(table: Table, store: Store, accepted: seq<Update>, s: State, t: State)
    requires PrefixSaved(table, store, accepted, s) && t.store == s.store && InFlight(t) == InFlight(s)
    ensures PrefixSaved(table, store, accepted, t)
  {
    hide Applied, InFlight, ValidUpdate;
  }

  lemma PrefixGrows(table: Table, store: Store, accepted: seq<Update>, s: State, u: Update, t: State)
    requires PrefixSaved(table, store, accepted, s) && ValidUpdate(table, u)
    requires t.store == s.store && InFlight(t) == InFlight(s) + [u]
    ensures PrefixSaved(table, store, accepted + [u], t)
  {
    hide InFlight, Applied;
    var n := |accepted| - |InFlight(s)|;
    var longer := accepted + [u];
    assert longer[n..] == accepted[n..] + [u] && longer[..n] == accepted[..n];
  }

  lemma PrefixSave(table: Table, store: Store, accepted: seq<Update>, s: State)
    requires WellFormed(table, s) && s.inHand.Some? && PrefixSaved(table, store, accepted, s)
    ensures PrefixSaved(table, store, accepted, Step(table, s, Save))
  {
    hide KeyName;
    var t := Step(table, s, Save);
    var n := |accepted| - |InFlight(s)|;
    assert InFlight(s) == [s.inHand.value] + InFlight(t);
    AppliedNext(table, store, accepted, n);
    hide Applied, InFlight;
    assert accepted[n] == accepted[n..][0] == s.inHand.value;
    assert accepted[n + 1..] == accepted[n..][1..];
  }

  /** The update a step writes to the cache, if it writes one. */
  function Newly(s: State, t: State): seq<Update> {
    if t.setter.Pending? && !s.setter.Pending? then [t.setter.u] else []
  }

  lemma StepPrefix(table: Table, store: Store, accepted: seq<Update>, s: State, e: Event)
    requires WellFormed(table, s) && Enabled(s, e) && PrefixSaved(table, store, accepted, s)
    ensures PrefixSaved(table, store, accepted + Newly(s, Step(table, s, e)), Step(table, s, e))
  {
    hide KeyName, PrefixSaved, Applied;
    var t := Step(table, s, e);
    assert accepted + [] == accepted;
    if e.Save? {
      PrefixSave(table, store, accepted, s);
    } else if Newly(s, t) == [] {
      InFlightKept(table, s, e);
      PrefixSame(table, store, accepted, s, t);
    } else {
      InFlightGrows(table, s, e);
      hide Step;
      PrefixGrows(table, store, accepted, s, t.setter.u, t);
    }
  }

  lemma InFlightGrows(table: Table, s: State, e: Event)
    requires WellFormed(table, s) && Enabled(s, e) && Newly(s, Step(table, s, e)) != []
    ensures var t := Step(table, s, e);
            ValidUpdate(table, t.setter.u) && t.store == s.store && InFlight(t) == InFlight(s) + [t.setter.u]
  {
    hide KeyName;
  }

  lemma InFlightKept(table: Table, s: State, e: Event)
    requires WellFormed(table, s) && Enabled(s, e) && !e.Save? && Newly(s, Step(table, s, e)) == []
    ensures InFlight(Step(table, s, e)) == InFlight(s)
  {
    hide KeyName;
    if e.Send? || e.Receive? { InFlightSame(table, s, e); }
  }

  /** What a loss of power leaves, at any point of any run, whatever the names: the accepted
      updates up to some moment, none of the later ones, and none out of order. */
  lemma {:induction false} StoreIsPrefix(table: Table, store: Store, events: seq<Event>)
    requires TableOk(table) && IsRun(table, store, events)
    ensures PrefixSaved(table, store, Accepted(table, store, events), After(table, store, events))
  {
    hide PrefixSaved;
    if |events| == 0 {
      LoadedPrefix(table, store);
    } else {
      var before := events[..|events| - 1];
      StoreIsPrefix(table, store, before);
      StepPrefix(table, store, Accepted(table, store, before), After(table, store, before), events[|events| - 1]);
    }
  }

  lemma LoadedPrefix(table: Table, store: Store)
    ensures PrefixSaved(table, store, [], Loaded(table, store))
  {
    hide KeyName;
  }

  // ---- the code --------------------------------------------------------------------------------

  /** The settings, the save queue and the store. Each method is one critical section, one
      queue operation or one store write; what a setter or nvs_task holds in a local
      variable between two of them is recorded in the ghosts setter and inHand. */
  class ConfigCache {
    const table: Table
    var values: seq<seq<Value>>
    var isSet: seq<bool>
    var saveQueue: seq<Update>
    var store: Store
    ghost var setter: Setter
    ghost var inHand: Option<Update>

    ghost function Abstract(): State
      reads this
    {
      State(values, isSet, setter, saveQueue, inHand, store)
    }

    ghost predicate Valid()
      reads this
    {
      WellFormed(table, Abstract())
    }

    /** The load loop of nvs_config_init. */
    constructor Load(table: Table, store: Store)
      requires TableOk(table)
      ensures this.table == table && Valid() && Abstract() == Loaded(table, store)
    {
      hide KeyName, Found;
      LoadedWellFormed(table, store);
      var vs: seq<seq<Value>>, sets: seq<bool> := [], [];
      var key: nat := 0;
      while key < |table|
        invariant key <= |table|
        invariant vs == LoadValues(table, store)[..key] && sets == Loaded(table, store).isSet[..key]
      {
        var row, found := LoadSetting(table[key], store);
        vs, sets := vs + [row], sets + [found];
        key := key + 1;
      }
      this.table, this.values, this.isSet := table, vs, sets;
      this.saveQueue, this.store, this.setter, this.inHand := [], store, Idle, None;
      new;
      assert Abstract() == Loaded(table, store);
    }

    /** The inner loop of the load loop, over the numbered entries of one setting. */
    static method LoadSetting(st: Setting, store: Store) returns (row: seq<Value>, found: bool)
      ensures row == LoadRow(st, store) && found == AnyFound(st, store)
    {
      hide KeyName, Found;
      row, found := [], false;
      var idx: nat := 0;
      while idx < CountOf(st)
        invariant idx <= CountOf(st) && row == LoadRow(st, store)[..idx]
        invariant found <==> exists i :: 0 <= i < idx && Found(st.kind, Find(store, KeyName(st, i))).Some?
      {
        match Found(st.kind, Find(store, KeyName(st, idx))) {
          case Some(v) =>
            row := row + [v];
            found := true;
          case None =>
            row := row + [st.defaultValue];
        }
        idx := idx + 1;
      }
    }

    /** nvs_config_set_u16, _i32, _u64 and _bool up to the queue: the change is pending
        unless the value is already there and known to be stored. */
    method SetScalar(u: Update) returns (pending: bool)
      requires Valid() && setter.Idle? && !u.value.Str?
      modifies this
      ensures Valid() && Abstract() == Step(table, old(Abstract()), Set(u)) && pending == setter.Pending?
    {
      pending := false;
      if u.key < |table| && u.index < CountOf(table[u.key]) && TypeOk(u.value, table[u.key].kind) {
        if values[u.key][u.index] != u.value || !isSet[u.key] {
          values := values[u.key := values[u.key][u.index := u.value]];
          isSet := isSet[u.key := true];
          setter := Pending(u);
          pending := true;
        }
      }
    }

    /** nvs_config_set_string and _indexed: the comparison, under the cache mutex. */
    method CompareString(u: Update) returns (differs: bool)
      requires Valid() && setter.Idle? && u.value.Str?
      modifies this`setter
      ensures Valid() && Abstract() == Step(table, old(Abstract()), Set(u)) && differs == setter.Compared?
    {
      differs := false;
      if u.key < |table| && u.index < CountOf(table[u.key]) && TypeOk(u.value, table[u.key].kind) {
        if values[u.key][u.index] != u.value || !isSet[u.key] {
          setter := Compared(u);
          differs := true;
        }
      }
    }

    /** The same setters: the write, in a second critical section. */
    method WriteString(u: Update)
      requires Valid() && setter == Compared(u)
      modifies this
      ensures Valid() && Abstract() == Step(table, old(Abstract()), Write)
    {
      values := values[u.key := values[u.key][u.index := u.value]];
      isSet := isSet[u.key := true];
      setter := Pending(u);
    }

    /** xQueueSend, which blocks while the queue is full. */
    method SendUpdate(u: Update)
      requires Valid() && setter == Pending(u) && |saveQueue| < QUEUE_LENGTH
      modifies this
      ensures Valid() && Abstract() == Step(table, old(Abstract()), Send)
    {
      saveQueue := saveQueue + [u];
      setter := Idle;
    }

    /** xQueueReceive in nvs_task, which blocks while the queue is empty. */
    method ReceiveUpdate() returns (u: Update)
      requires Valid() && inHand.None? && |saveQueue| > 0
      modifies this
      ensures Valid() && inHand == Some(u) && Abstract() == Step(table, old(Abstract()), Receive)
    {
      u := saveQueue[0];
      saveQueue := saveQueue[1..];
      inHand := Some(u);
    }

    /** The rest of the turn: the store call for the type, and the commit. */
    method SaveUpdate(u: Update)
      requires Valid() && inHand == Some(u)
      modifies this
      ensures Valid() && Abstract() == Step(table, old(Abstract()), Save)
    {
      var name := KeyName(table[u.key], u.index);
      match u.value {
        case Str(s) => store := store[name := StoredStr(s)];
        case U16(n) => store := store[name := StoredU16(n)];
        case I32(i) => store := store[name := StoredI32(i)];
        case U64(m) => store := store[name := StoredU64(m)];
        case Bool(b) => store := store[name := StoredU16(if b then 1 else 0)];
      }
      inHand := None;
    }

    /** The getters of numbers and truth values: the first cell, for the right type. */
    method GetScalar(key: nat, kind: Kind) returns (r: Option<Value>)
      requires Valid() && !kind.KindStr?
      ensures r.Some? <==> key < |table| && table[key].kind == kind
      ensures r.Some? ==> r.value == Abstract().values[key][0] && TypeOk(r.value, kind)
    {
      if key >= |table| || table[key].kind != kind { return None; }
      r := Some(values[key][0]);
    }

    /** nvs_config_get_string refuses arrays of more than one. */
    method GetString(key: nat) returns (r: Option<Value>)
      requires Valid()
      ensures r.Some? <==> key < |table| && table[key].kind.KindStr? && CountOf(table[key]) == 1
      ensures r.Some? ==> r.value == Abstract().values[key][0] && r.value.Str?
    {
      if key >= |table| || !table[key].kind.KindStr? || table[key].arraySize > 1 { return None; }
      r := Some(values[key][0]);
    }

    /** nvs_config_get_string_indexed refuses plain settings and indices outside the array. */
    method GetStringIndexed(key: nat, index: int) returns (r: Option<Value>)
      requires Valid()
      ensures r.Some? <==>
              key < |table| && table[key].kind.KindStr? && table[key].arraySize > 0 && 0 <= index < CountOf(table[key])
      ensures r.Some? ==> r.value == Abstract().values[key][index] && r.value.Str?
    {
      if key >= |table| || !table[key].kind.KindStr? || table[key].arraySize < 1 { return None; }
      if index < 0 || index >= table[key].arraySize { return None; }
      r := Some(values[key][index]);
    }
  }
}
