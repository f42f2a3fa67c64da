/** The length-prefixed fingerprint of a native timer, and its comparison up to the transient event ID.
    A `string` stands for the UTF-8 bytes here, one character per byte. */
module Fingerprint {
  import opened Strings
  import opened Wrappers

  const PREFIX := "native-timer-observed-state/1|"
  const FIELD_COUNT := 15
  const MAX_BYTES := 4096

  /** The position of the first colon at or after `pos`. */
  function FindColon(s: string, pos: nat): (r: Option<nat>)
    requires pos <= |s|
    decreases |s| - pos
    ensures r.Some? ==> pos <= r.value < |s| && s[r.value] == ':'
                        && forall i :: pos <= i < r.value ==> s[i] != ':'
    ensures r.None? ==> forall i :: pos <= i < |s| ==> s[i] != ':'
  {
    if pos == |s| then None else if s[pos] == ':' then Some(pos) else FindColon(s, pos + 1)
  }

  // -------------------------------------------------------------- the format

  /** One field as written: its length in digits, leading zeros allowed, then the bytes themselves. */
  function Chunk(head: string, field: string): string {
    head + ":" + field + "|"
  }

  function Joined(heads: seq<string>, fields: seq<string>): string
    requires |heads| == |fields|
  {
    if fields == [] then "" else Chunk(heads[0], fields[0]) + Joined(heads[1..], fields[1..])
  }

  predicate HeadsFit(heads: seq<string>, fields: seq<string>) {
    |heads| == |fields| && forall i :: 0 <= i < |fields| ==> AllDigits(heads[i]) && Value(heads[i]) == |fields[i]|
  }

  ghost predicate SpellsBehind(prefix: string, data: string, fields: seq<string>) {
    exists heads :: HeadsFit(heads, fields) && data == prefix + Joined(heads, fields)
  }

  /** `data` is exactly the fields, in their order, in that format. */
  ghost predicate Spells(data: string, fields: seq<string>) {
    SpellsBehind("native-timer-observed-state/1|", data, fields)
  }

  /** The canonical encoding. */
  function Encode(fields: seq<string>): string {
    if fields == [] then "" else Chunk(Decimal(|fields[0]|), fields[0]) + Encode(fields[1..])
  }

  // -------------------------------------------------------------- decoding

  /** Where one turn of the loop finds the field at `pos`: its first byte and the bar after it. */
  function Bounds(data: string, pos: nat): (r: Option<(nat, nat)>)
    requires pos <= |data|
    ensures r.Some? ==> pos < r.value.0 <= r.value.1 < |data|
  {
    match FindColon(data, pos)
    case None => None
    case Some(colon) =>
      if !AllDigits(data[pos..colon]) then None
      else
        var (start, end) := (colon + 1, colon + 1 + Value(data[pos..colon]));
        if end >= |data| || data[end] != '|' then None else Some((start, end))
  }

  /** The fields from `pos` on, at most `limit` of them, after those in `fields`, if they reach to the
      very end. */
  function FieldsFrom(data: string, pos: nat, limit: nat, fields: seq<string>): Option<seq<string>>
    requires pos <= |data|
    decreases limit
  {
    if pos == |data| then Some(fields)
    else if limit == 0 then None
    else
      match Bounds(data, pos)
      case None => None
      case Some((start, end)) => FieldsFrom(data, end + 1, limit - 1, fields + [data[start..end]])
  }

  function Exactly(fields: Option<seq<string>>, count: nat): Option<seq<string>> {
    if fields.Some? && |fields.value| == count then fields else None
  }

  /** The loop of `decode`, from the byte after the prefix. */
  method DecodeFields(data: string, first: nat, count: nat) returns (r: Option<seq<string>>)
    requires first <= |data|
    ensures r == Exactly(FieldsFrom(data, first, count, []), count)
  {
    hide Bounds;
    var pos := first;
    var fields: seq<string> := [];
    ghost var left := count;
    while pos < |data| && |fields| < count
      invariant first <= pos <= |data| && |fields| + left == count
      invariant FieldsFrom(data, first, count, []) == FieldsFrom(data, pos, left, fields)
      decreases left
    {
      var bounds := Bounds(data, pos);
      if bounds.None? { return None; }
      var (start, end) := bounds.value;
      fields, pos, left := fields + [data[start..end]], end + 1, left - 1;
    }
    r := if pos == |data| && |fields| == count then Some(fields) else None;
  }

  /** What `decode` returns. */
  function Decoded(value: Option<string>): Option<seq<string>> {
    if value.None? || !(PREFIX <= value.value) || |value.value| > MAX_BYTES then None
    else Exactly(FieldsFrom(value.value, |PREFIX|, FIELD_COUNT, []), FIELD_COUNT)
  }

  /** `decode`. */
  method Decode(value: Option<string>) returns (r: Option<seq<string>>)
    ensures r == Decoded(value)
  {
    if value.None? { return None; }
    if !(PREFIX <= value.value) || |value.value| > MAX_BYTES { return None; }
    r := DecodeFields(value.value, |PREFIX|, FIELD_COUNT);
  }

  // -------------------------------------------- decoding is the inverse of the format

  lemma {:induction false} BoundsRead(front: string, head: string, field: string, rest: string)
    requires AllDigits(head) && Value(head) == |field|
    ensures var data := front + Chunk(head, field) + rest;
            var start := |front| + |head| + 1;
            && Bounds(data, |front|) == Some((start, start + |field|))
            && data[start..start + |field|] == field
            && start + |field| + 1 == |front + Chunk(head, field)|
  {
    var data := front + Chunk(head, field) + rest;
    var colon := |front| + |head|;
    assert data[colon] == ':';
    assert forall i :: |front| <= i < colon ==> data[i] == head[i - |front|];
    assert FindColon(data, |front|) == Some(colon);
    assert data[|front|..colon] == head;
  }

  lemma BoundsMean(data: string, pos: nat) returns (head: string)
    requires pos <= |data| && Bounds(data, pos).Some?
    ensures var (start, end) := Bounds(data, pos).value;
            && AllDigits(head) && Value(head) == |data[start..end]|
            && data[pos..] == Chunk(head, data[start..end]) + data[end + 1..]
  {
    head := data[pos..FindColon(data, pos).value];
  }

  lemma {:induction false} FieldsRead(front: string, heads: seq<string>, fields: seq<string>, limit: nat,
                                      sofar: seq<string>)
    requires HeadsFit(heads, fields) && |fields| <= limit
    ensures FieldsFrom(front + Joined(heads, fields), |front|, limit, sofar) == Some(sofar + fields)
    decreases limit
  {
    hide Bounds, AllDigits, Value;
    var data := front + Joined(heads, fields);
    if fields == [] {
      assert sofar + fields == sofar;
    } else {
      var (head, field) := (heads[0], fields[0]);
      var (front', rest) := (front + Chunk(head, field), Joined(heads[1..], fields[1..]));
      assert data == front' + rest;
      BoundsRead(front, head, field, rest);
      FieldsRead(front', heads[1..], fields[1..], limit - 1, sofar + [field]);
      assert (sofar + [field]) + fields[1..] == sofar + fields;
    }
  }

  lemma {:induction false} JoinMore(head: string, field: string, heads: seq<string>, fields: seq<string>)
    requires AllDigits(head) && Value(head) == |field| && HeadsFit(heads, fields)
    ensures HeadsFit([head] + heads, [field] + fields)
    ensures Joined([head] + heads, [field] + fields) == Chunk(head, field) + Joined(heads, fields)
  {
    var (hs, fs) := ([head] + heads, [field] + fields);
    assert hs[1..] == heads && fs[1..] == fields;
    forall i | 0 <= i < |fs| ensures AllDigits(hs[i]) && Value(hs[i]) == |fs[i]| {
      if i > 0 { assert hs[i] == heads[i - 1] && fs[i] == fields[i - 1]; }
    }
  }

  /** One field in front of those that follow it. */
  lemma MeanStep(data: string, pos: nat, end: nat, head: string, field: string,
                 hs: seq<string>, fs: seq<string>, sofar: seq<string>, whole: seq<string>)
    returns (heads: seq<string>, fields: seq<string>)
    requires pos <= end < |data| && AllDigits(head) && Value(head) == |field| && HeadsFit(hs, fs)
    requires data[pos..] == Chunk(head, field) + data[end + 1..] && data[end + 1..] == Joined(hs, fs)
    requires whole == (sofar + [field]) + fs
    ensures HeadsFit(heads, fields) && data[pos..] == Joined(heads, fields) && whole == sofar + fields
  {
    heads, fields := [head] + hs, [field] + fs;
    JoinMore(head, field, hs, fs);
    assert whole == sofar + fields;
  }

  lemma {:induction false} FieldsMean(data: string, pos: nat, limit: nat, sofar: seq<string>, whole: seq<string>)
    returns (heads: seq<string>, fields: seq<string>)
    requires pos <= |data| && FieldsFrom(data, pos, limit, sofar) == Some(whole)
    ensures HeadsFit(heads, fields) && data[pos..] == Joined(heads, fields) && whole == sofar + fields
    decreases limit
  {
    hide Bounds, Chunk, AllDigits, Value;
    if pos == |data| {
      heads, fields := [], [];
      assert sofar + [] == sofar;
    } else {
      var (start, end) := Bounds(data, pos).value;
      var head := BoundsMean(data, pos);
      heads, fields := FieldsMean(data, end + 1, limit - 1, sofar + [data[start..end]], whole);
      heads, fields := MeanStep(data, pos, end, head, data[start..end], heads, fields, sofar, whole);
    }
  }

  /** `decode` accepts exactly the whole strings of the format with 15 fields and at most 4096 bytes,
      and returns those fields. */
  lemma DecodedExactly(data: string, fields: seq<string>)
    ensures Decoded(Some(data)) == Some(fields) <==> |fields| == 15 && |data| <= 4096 && Spells(data, fields)
  {
    hide SpellsBehind, FieldsFrom;
    DecodedBehind(PREFIX, data, fields);
  }

  lemma {:induction false} DecodedBehind(prefix: string, data: string, fields: seq<string>)
    ensures prefix <= data && Exactly(FieldsFrom(data, |prefix|, 15, []), 15) == Some(fields) <==>
            |fields| == 15 && SpellsBehind(prefix, data, fields)
  {
    hide Bounds, Joined, AllDigits, Value;
    if prefix <= data && Exactly(FieldsFrom(data, |prefix|, 15, []), 15) == Some(fields) {
      DecodedMeans(data, |prefix|, fields, 15);
      assert data[..|prefix|] == prefix;
    }
    if |fields| == 15 && SpellsBehind(prefix, data, fields) {
      var heads :| HeadsFit(heads, fields) && data == prefix + Joined(heads, fields);
      FieldsRead(prefix, heads, fields, 15, []);
      assert [] + fields == fields;
    }
  }

  lemma {:induction false} DecodedMeans(data: string, start: nat, fields: seq<string>, count: nat)
    requires start <= |data| && FieldsFrom(data, start, count, []) == Some(fields)
    ensures exists heads :: HeadsFit(heads, fields) && data == data[..start] + Joined(heads, fields)
  {
    hide FieldsFrom, AllDigits, Value, Joined;
    var heads, fs := FieldsMean(data, start, count, [], fields);
    assert fs == [] + fs == fields;
    assert data == data[..start] + data[start..];
  }

  lemma {:induction false} EncodeIsJoined(fields: seq<string>) returns (heads: seq<string>)
    ensures HeadsFit(heads, fields) && Encode(fields) == Joined(heads, fields)
  {
    heads := [];
    if fields != [] {
      var more := EncodeIsJoined(fields[1..]);
      heads := [Decimal(|fields[0]|)] + more;
      assert heads[1..] == more;
    }
  }

  lemma {:induction false} EncodeSpells(prefix: string, fields: seq<string>)
    ensures SpellsBehind(prefix, prefix + Encode(fields), fields)
  {
    var heads := EncodeIsJoined(fields);
  }

  /** The round trip, whatever bytes the fields hold. */
  lemma {:induction false} DecodeEncode(fields: seq<string>)
    requires |fields| == 15 && |"native-timer-observed-state/1|" + Encode(fields)| <= 4096
    ensures Decoded(Some("native-timer-observed-state/1|" + Encode(fields))) == Some(fields)
  {
    hide Decoded;
    EncodeSpells("native-timer-observed-state/1|", fields);
    DecodedExactly("native-timer-observed-state/1|" + Encode(fields), fields);
  }

  // -------------------------------------------------------------- comparison

  /** `same_timer_fingerprint_except_epg_event_id`. */
  predicate SameExceptEventId(original: Option<string>, current: Option<string>) {
    var (before, after) := (Decoded(original), Decoded(current));
    before.Some? && after.Some? && before.value[0] == after.value[0] && before.value[2..] == after.value[2..]
  }

  /** An absent fingerprint is the same as nothing. */
  lemma AbsentIsDifferent(other: Option<string>)
    ensures !SameExceptEventId(None, other) && !SameExceptEventId(other, None)
  {
    hide FieldsFrom;
  }

  /** The comparison holds exactly when both sides spell 15 fields that agree at every index but 1. */
  lemma SameMeans(original: string, current: string)
    ensures SameExceptEventId(Some(original), Some(current)) <==>
            exists f, g ::
              && |f| == |g| == 15 && |original| <= 4096 && |current| <= 4096
              && Spells(original, f) && Spells(current, g)
              && forall i :: 0 <= i < 15 && i != 1 ==> f[i] == g[i]
  {
    hide Decoded, Spells;
    if SameExceptEventId(Some(original), Some(current)) {
      var (f, g) := (Decoded(Some(original)).value, Decoded(Some(current)).value);
      DecodedExactly(original, f);
      DecodedExactly(current, g);
      forall i | 0 <= i < FIELD_COUNT && i != 1 ensures f[i] == g[i] {
        if i > 1 { assert f[i] == f[2..][i - 2] && g[i] == g[2..][i - 2]; }
      }
    }
    if f, g :|
      && |f| == |g| == FIELD_COUNT && |original| <= MAX_BYTES && |current| <= MAX_BYTES
      && Spells(original, f) && Spells(current, g)
      && forall i :: 0 <= i < FIELD_COUNT && i != 1 ==> f[i] == g[i]
    {
      DecodedExactly(original, f);
      DecodedExactly(current, g);
      assert f[2..] == g[2..];
    }
  }
}
