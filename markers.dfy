/** The marker files of FileSystem.ts: how their names are built (lines 89-95, 108-116), how
    the sweep reads a name back (lines 131-139), and the expiry arithmetic (lines 12-15,
    109-111). */
module Markers {
  import opened Text
  import opened Paths

  const MetaFilePrefix := "binarymeta"
  const PersistedMetaFilePrefix := "persistedmeta"
  const Minute := 60000
  const Hour := 3600000

  /** The furthest a JavaScript Date reaches on either side of the epoch, in milliseconds. */
  const MaxTimeValue := 8_640_000_000_000_000

  /** `${new Date(t).valueOf()}`: the time as text, or "NaN" beyond what a Date can hold. */
  function DateValueText(t: int): (r: string)
    ensures r != [] && '_' !in r && '/' !in r
  {
    IntToStringChars(t);
    if -MaxTimeValue <= t <= MaxTimeValue then IntToString(t) else "NaN"
  }

  /** parseInt reads a Date's value back from its text, and NaN from "NaN". */
  lemma DateValueTextParses(t: int)
    ensures -MaxTimeValue <= t <= MaxTimeValue ==> ParseInt(DateValueText(t)) == Finite(t)
    ensures t < -MaxTimeValue || MaxTimeValue < t ==> ParseInt(DateValueText(t)) == NaN
  {
    if -MaxTimeValue <= t <= MaxTimeValue {
      ParseIntOfIntToString(t);
    } else {
      ParseIntOfNonNumeric("NaN");
    }
  }

  /** The deletion marker for an execution: binarymeta_<executionId>_<expiry>. Split on '_',
      it gives back its three parts when the execution id holds no '_'. */
  function DeletionMarkerName(executionId: string, expiry: int): (name: string)
    ensures '_' !in executionId ==>
      Split(name, '_') == [MetaFilePrefix, executionId, DateValueText(expiry)]
  {
    var name := MetaFilePrefix + "_" + executionId + "_" + DateValueText(expiry);
    if '_' in executionId then name
    else SplitThree(MetaFilePrefix, executionId, DateValueText(expiry)); name
  }

  /** The first full hour strictly after `now`. */
  function TimeAtNextHour(now: nat): (t: nat)
    ensures t % Hour == 0
    ensures now < t <= now + Hour
  {
    now + Hour - now % Hour
  }

  /** When a persistence marker written at `now` expires: the TTL after the next full hour. */
  function PersistExpiry(now: nat, persistedDataTTL: int): (expiry: int)
    ensures (expiry - persistedDataTTL) % Hour == 0
    ensures now < expiry - persistedDataTTL <= now + Hour
  {
    TimeAtNextHour(now) + persistedDataTTL
  }

  /** The persistence marker for an execution: persistedmeta_<executionId>_<expiry>. Split
      on '_', it gives back its three parts when the execution id holds no '_'. */
  function PersistMarkerName(executionId: string, expiry: int): (name: string)
    ensures '_' !in executionId ==>
      Split(name, '_') == [PersistedMetaFilePrefix, executionId, IntToString(expiry)]
  {
    IntToStringChars(expiry);
    var name := PersistedMetaFilePrefix + "_" + executionId + "_" + IntToString(expiry);
    if '_' in executionId then name
    else SplitThree(PersistedMetaFilePrefix, executionId, IntToString(expiry)); name
  }

  /** What the sweep reads out of a marker name. */
  datatype MarkerFields = MarkerFields(prefix: string, executionId: string, timestamp: JsNumber)

  /** `const [prefix, executionId, ts] = name.split('_')` and `parseInt(ts, 10)`: pieces after
      the third are ignored, and a missing timestamp reads as NaN. (A missing executionId is
      only ever used together with a timestamp, so the value given here for it is never read.) */
  function ParseMarkerName(name: string): (fields: MarkerFields)
    ensures StartsWith(name, fields.prefix)
    ensures '_' !in fields.prefix && '_' !in fields.executionId
    ensures '_' !in name ==> fields == MarkerFields(name, "", NaN)
  {
    var parts := Split(name, '_');
    assert StartsWith(JoinWith(parts, '_'), parts[0]);
    assert '_' !in name ==> parts == [name] by {
      if '_' !in name {
        SplitWithoutSeparator(name, '_');
      }
    }
    MarkerFields(
      parts[0],
      if |parts| > 1 then parts[1] else "",
      if |parts| > 2 then ParseInt(parts[2]) else NaN)
  }

  /** The sweep acts on a marker when its prefix is the one it looks for and its timestamp
      is a number below the current time; NaN compares false. */
  predicate Expired(name: string, prefix: string, now: int)
    ensures Expired(name, prefix, now) ==> StartsWith(name, prefix) && '_' in name
  {
    var fields := ParseMarkerName(name);
    fields.prefix == prefix && fields.timestamp.LessThan(now)
  }

  /** The execution a marker names, as the sweep reads it. */
  function MarkerExecutionId(name: string): string {
    ParseMarkerName(name).executionId
  }

  /** The keys under which a fresh JavaScript object literal already answers with a truthy
      value: the members of Object.prototype. */
  const ObjectPrototypeKeys: set<string> := {
    "constructor", "hasOwnProperty", "isPrototypeOf", "propertyIsEnumerable",
    "toLocaleString", "toString", "valueOf", "__defineGetter__", "__defineSetter__",
    "__lookupGetter__", "__lookupSetter__", "__proto__"
  }

  // ----- lemmas -----

  lemma IntToStringChars(n: int)
    ensures forall i | 0 <= i < |IntToString(n)| :: IsDigit(IntToString(n)[i]) || IntToString(n)[i] == '-'
  {
    var s := IntToString(n);
    if n < 0 {
      forall i | 0 <= i < |s| ensures IsDigit(s[i]) || s[i] == '-' {
        if i > 0 {
          assert s[i] == NatToString(-n)[i - 1];
        }
      }
    }
  }

  /** Splitting prefix_id_text on '_' gives the three pieces back when none holds a '_'. */
  lemma {:induction false} SplitThree(prefix: string, id: string, text: string)
    requires '_' !in prefix && '_' !in id && '_' !in text
    ensures Split(prefix + "_" + id + "_" + text, '_') == [prefix, id, text]
  {
    assert prefix + "_" + id + "_" + text == prefix + ['_'] + (id + ['_'] + text);
    SplitAround(prefix, '_', id + ['_'] + text);
    SplitAround(id, '_', text);
    SplitWithoutSeparator(prefix, '_');
    SplitWithoutSeparator(id, '_');
    SplitWithoutSeparator(text, '_');
  }

  /** A deletion marker is read back as its prefix, its execution and its expiry, as long as
      the execution id holds no '_' and the expiry is a time a Date can hold. */
  lemma DeletionMarkerRoundTrip(executionId: string, expiry: int)
    requires '_' !in executionId
    requires -MaxTimeValue <= expiry <= MaxTimeValue
    ensures ParseMarkerName(DeletionMarkerName(executionId, expiry)) ==
      MarkerFields(MetaFilePrefix, executionId, Finite(expiry))
  {
    SplitThree(MetaFilePrefix, executionId, DateValueText(expiry));
    ParseIntOfIntToString(expiry);
  }

  /** A deletion marker is due exactly when its expiry lies before the sweep's time. */
  lemma DeletionMarkerDue(executionId: string, expiry: int, now: int)
    requires '_' !in executionId
    requires -MaxTimeValue <= expiry <= MaxTimeValue
    ensures Expired(DeletionMarkerName(executionId, expiry), MetaFilePrefix, now) <==> expiry < now
    ensures MarkerExecutionId(DeletionMarkerName(executionId, expiry)) == executionId
  {
    DeletionMarkerRoundTrip(executionId, expiry);
  }

  /** An expiry no Date can hold is written as "NaN", and that marker is never due. */
  lemma UnrepresentableExpiryNeverDue(executionId: string, expiry: int, now: int)
    requires '_' !in executionId
    requires expiry < -MaxTimeValue || MaxTimeValue < expiry
    ensures !Expired(DeletionMarkerName(executionId, expiry), MetaFilePrefix, now)
  {
    SplitThree(MetaFilePrefix, executionId, "NaN");
    ParseIntOfNonNumeric("NaN");
  }

  /** A persistence marker is due exactly when its expiry lies before the sweep's time. */
  lemma PersistMarkerDue(executionId: string, expiry: int, now: int)
    requires '_' !in executionId
    ensures Expired(PersistMarkerName(executionId, expiry), PersistedMetaFilePrefix, now) <==> expiry < now
    ensures MarkerExecutionId(PersistMarkerName(executionId, expiry)) == executionId
  {
    IntToStringChars(expiry);
    SplitThree(PersistedMetaFilePrefix, executionId, IntToString(expiry));
    ParseIntOfIntToString(expiry);
  }

  /** An execution id a_b is misread: the sweep takes `a` for the execution and parses `b`
      as the timestamp, so the marker's real expiry is ignored. */
  lemma UnderscoreIdMisread(a: string, b: string, expiry: int)
    requires '_' !in a && '_' !in b
    ensures ParseMarkerName(DeletionMarkerName(a + "_" + b, expiry)) ==
      MarkerFields(MetaFilePrefix, a, ParseInt(b))
  {
    var text := DateValueText(expiry);
    assert DeletionMarkerName(a + "_" + b, expiry) == (MetaFilePrefix + "_" + a + "_" + b) + ['_'] + text;
    SplitAround(MetaFilePrefix + "_" + a + "_" + b, '_', text);
    SplitThree(MetaFilePrefix, a, b);
  }

  /** Every persistence marker written within one hour bucket gets the same expiry. */
  lemma SameHourSameExpiry(now1: nat, now2: nat, persistedDataTTL: int)
    requires now1 / Hour == now2 / Hour
    ensures PersistExpiry(now1, persistedDataTTL) == PersistExpiry(now2, persistedDataTTL)
  {
    assert now1 == now1 / Hour * Hour + now1 % Hour;
    assert now2 == now2 / Hour * Hour + now2 % Hour;
  }

  /** Two '_'-free ids agree when one, followed by '_', is a prefix of the other followed by '_'. */
  lemma IdPrefixAgrees(a: string, b: string, rest: string)
    requires '_' !in a && '_' !in b
    requires StartsWith(a + "_" + rest, b + "_")
    ensures a == b
  {
    var s := a + "_" + rest;
    var tail := s[|b| + 1..];
    assert s == b + ['_'] + tail;
    SplitAround(a, '_', rest);
    SplitAround(b, '_', tail);
    SplitWithoutSeparator(a, '_');
    SplitWithoutSeparator(b, '_');
  }

  /** The prefix persistBinaryDataForExecutionId clears picks out exactly the persistence
      markers of that execution, when execution ids hold no '_'. */
  lemma PersistPrefixSelectsExecution(executionId: string, other: string, expiry: int)
    requires '_' !in executionId && '_' !in other
    ensures StartsWith(PersistMarkerName(other, expiry), PersistedMetaFilePrefix + "_" + executionId + "_")
      <==> other == executionId
  {
    var head := PersistedMetaFilePrefix + "_";
    var name := PersistMarkerName(other, expiry);
    var prefix := PersistedMetaFilePrefix + "_" + executionId + "_";
    assert name == head + (other + "_" + IntToString(expiry));
    assert prefix == head + (executionId + "_");
    if StartsWith(name, prefix) {
      assert name[|head|..][..|prefix| - |head|] == name[|head|..|prefix|];
      assert (other + "_" + IntToString(expiry))[..|executionId + "_"|] == executionId + "_";
      IdPrefixAgrees(other, executionId, IntToString(expiry));
    }
  }

  /** Marker names are single path segments when the execution id holds no '/'. */
  lemma MarkerNamesAreSegments(executionId: string, expiry: int)
    requires '/' !in executionId
    ensures IsSegment(DeletionMarkerName(executionId, expiry))
    ensures IsSegment(PersistMarkerName(executionId, expiry))
  {
    IntToStringChars(expiry);
    assert DeletionMarkerName(executionId, expiry)[0] == 'b';
    assert PersistMarkerName(executionId, expiry)[0] == 'p';
  }
}
