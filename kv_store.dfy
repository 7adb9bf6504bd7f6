/**
 * `KvStoreBTreeImpl` of the core crate (core/src/data/impl_btree.rs): values
 * stored under consecutive `u64` ids, handed out as string keys
 * `"<prefix>_<id>"`. Lookups and removals split a key at its last `_`,
 * compare the front with the store's prefix and parse the tail as a `u64`.
 */
module KvStore {
  import opened Wrappers

  /** `u64::MAX`. */
  const U64_MAX: nat := 18446744073709551615

  predicate IsDigit(c: char) {
    '0' <= c <= '9'
  }

  /** One or more ASCII digits. */
  predicate IsDigits(s: string) {
    |s| > 0 && forall i :: 0 <= i < |s| ==> IsDigit(s[i])
  }

  /** The number a run of decimal digits spells, most significant first. */
  function DigitsValue(s: string): nat
    requires forall i :: 0 <= i < |s| ==> IsDigit(s[i])
  {
    if |s| == 0 then 0
    else DigitsValue(s[..|s| - 1]) * 10 + DigitValue(s[|s| - 1])
  }

  function DigitValue(c: char): nat
    requires IsDigit(c)
  {
    c as int - '0' as int
  }

  function DigitChar(d: nat): (c: char)
    requires d < 10
    ensures IsDigit(c) && DigitValue(c) == d
  {
    ('0' as int + d) as char
  }

  /**
   * The `{}` rendering of a `u64` inside `format!`: decimal digits without
   * leading zeros, which read back as the number itself.
   */
  function Decimal(n: nat): (s: string)
    ensures IsDigits(s) && DigitsValue(s) == n
    ensures s[0] == '0' ==> s == "0"
    decreases n
  {
    if n < 10 then [DigitChar(n)]
    else
      var front := Decimal(n / 10);
      var s := front + [DigitChar(n % 10)];
      assert s[..|s| - 1] == front;
      s
  }

  /**
   * `str::parse::<u64>`: an optional leading `+`, then one or more ASCII
   * digits (leading zeros allowed) whose value fits in 64 bits.
   */
  function ParseU64(s: string): (r: Option<nat>)
    ensures r.Some? ==> r.value <= U64_MAX
    ensures r.Some? ==> |s| > 0 && (IsDigit(s[0]) || s[0] == '+')
  {
    var digits := if |s| > 0 && s[0] == '+' then s[1..] else s;
    if IsDigits(digits) && DigitsValue(digits) <= U64_MAX then Some(DigitsValue(digits)) else None
  }

  /** What `ParseU64` accepts beyond the canonical rendering, and what it refuses. */
  lemma ParseU64Examples()
    ensures ParseU64("+007") == Some(7)
    ensures ParseU64("") == None && ParseU64("+") == None && ParseU64("-1") == None
    ensures ParseU64("1a") == None
  {
    assert "+007"[1..] == "007";
    assert "007"[..2] == "00" && "00"[..1] == "0";
    assert DigitsValue("0") == 0 && DigitsValue("00") == 0;
    assert !IsDigit("1a"[1]);
    assert !IsDigit("-1"[0]);
  }

  /**
   * The rendering of every number parses back to it when it fits in a
   * `u64`, and is refused when it does not.
   */
  lemma ParseDecimal(n: nat)
    ensures n <= U64_MAX ==> ParseU64(Decimal(n)) == Some(n)
    ensures n > U64_MAX ==> ParseU64(Decimal(n)) == None
  {
    assert IsDigit(Decimal(n)[0]);
  }

  /** The position of the last `c` in `s`, if there is one. */
  function LastIndexOf(s: string, c: char): (r: Option<nat>)
    ensures r.Some? ==> r.value < |s| && s[r.value] == c && c !in s[r.value + 1..]
    ensures r.None? ==> c !in s
  {
    if |s| == 0 then None
    else if s[|s| - 1] == c then Some(|s| - 1)
    else
      var r := LastIndexOf(s[..|s| - 1], c);
      assert s == s[..|s| - 1] + [s[|s| - 1]];
      if r.Some? then
        assert s[r.value + 1..] == s[..|s| - 1][r.value + 1..] + [s[|s| - 1]];
        r
      else r
  }

  /** A `c` followed by a run free of `c` is the last one. */
  lemma LastIndexOfSplit(a: string, c: char, t: string)
    requires c !in t
    ensures LastIndexOf(a + [c] + t, c) == Some(|a|)
  {
    var s := a + [c] + t;
    var r := LastIndexOf(s, c);
    assert s[|a|] == c;
  }

  /**
   * `parse_prefix_id`: the text before the last `_` and the `u64` after it.
   * A key with no `_`, or whose tail does not parse, gives nothing.
   */
  function ParsePrefixId(id: string): (r: Option<(string, nat)>)
    ensures '_' !in id ==> r.None?
    ensures r.Some? ==> var k := |r.value.0|;
      && k < |id| && id[..k] == r.value.0 && id[k] == '_' && '_' !in id[k + 1..]
      && ParseU64(id[k + 1..]) == Some(r.value.1)
  {
    match LastIndexOf(id, '_')
    case None => None
    case Some(k) =>
      match ParseU64(id[k + 1..])
      case None => None
      case Some(n) => Some((id[..k], n))
  }

  /** The key `insert` hands out for `id`: `format!("{}_{}", prefix, id)`. */
  function FormatKey(prefix: string, id: nat): (key: string)
    ensures |key| > |prefix| + 1 && key[..|prefix|] == prefix && key[|prefix|] == '_'
    ensures IsDigits(key[|prefix| + 1..]) && DigitsValue(key[|prefix| + 1..]) == id
  {
    prefix + "_" + Decimal(id)
  }

  /**
   * Keys read back: splitting at the last `_` recovers prefix and id, also
   * when the prefix itself contains `_`.
   */
  lemma KeyRoundTrip(prefix: string, id: nat)
    requires id <= U64_MAX
    ensures ParsePrefixId(FormatKey(prefix, id)) == Some((prefix, id))
  {
    var key := FormatKey(prefix, id);
    assert '_' !in Decimal(id) by {
      forall i | 0 <= i < |Decimal(id)| ensures Decimal(id)[i] != '_' {
        assert IsDigit(Decimal(id)[i]);
      }
    }
    LastIndexOfSplit(prefix, '_', Decimal(id));
    assert key[|prefix| + 1..] == Decimal(id);
    assert key[..|prefix|] == prefix;
    ParseDecimal(id);
  }

  /** Distinct ids under one prefix give distinct keys. */
  lemma KeysDistinct(prefix: string, a: nat, b: nat)
    requires a <= U64_MAX && b <= U64_MAX && a != b
    ensures FormatKey(prefix, a) != FormatKey(prefix, b)
  {
    KeyRoundTrip(prefix, a);
    KeyRoundTrip(prefix, b);
  }

  class KvStoreBTree<V> {
    /** The `map` field (a `BTreeMap<u64, V>`). */
    var table: map<nat, V>
    var nextId: nat
    const prefix: string

    /** Every stored id was handed out already, and ids stay within `u64`. */
    ghost predicate Valid()
      reads this
    {
      nextId <= U64_MAX && forall k :: k in table ==> k < nextId
    }

    /** `new`: an empty map, the first id 0. */
    constructor (prefix: string)
      ensures Valid()
      ensures table == map[] && nextId == 0 && this.prefix == prefix
    {
      table := map[];
      nextId := 0;
      this.prefix := prefix;
    }

    /**
     * `get`: the value under the id the key names, when the key splits,
     * its front is this store's prefix and the id is present.
     */
    function Get(key: string): (r: Option<V>)
      reads this
      ensures r.Some? ==> ParsePrefixId(key).Some? && ParsePrefixId(key).value.0 == prefix
      ensures r.Some? <==> exists n :: n in table && ParsePrefixId(key) == Some((prefix, n))
      ensures forall n :: n in table && ParsePrefixId(key) == Some((prefix, n)) ==> r == Some(table[n])
    {
      match ParsePrefixId(key)
      case None => None
      case Some(parsed) =>
        if parsed.0 != prefix then None
        else if parsed.1 in table then Some(table[parsed.1])
        else None
    }

    /**
     * `insert`: stores the value under the next id, which no stored value
     * uses, and returns its key; every earlier key keeps its value.
     * `next_id += 1` overflows when every `u64` id is used.
     */
    method Insert(value: V) returns (key: string)
      requires Valid() && nextId < U64_MAX
      modifies this
      ensures Valid()
      ensures key == FormatKey(prefix, old(nextId))
      ensures nextId == old(nextId) + 1
      ensures old(nextId) !in old(table) && table == old(table)[old(nextId) := value]
      ensures Get(key) == Some(value)
      ensures forall k :: old(Get(k)).Some? ==> Get(k) == old(Get(k))
    {
      var id := nextId;
      nextId := nextId + 1;
      key := FormatKey(prefix, id);
      table := table[id := value];
      KeyRoundTrip(prefix, id);
    }

    /**
     * `remove`: deletes the entry the key names and reports whether there
     * was one; nothing else changes, and afterwards the key finds nothing.
     */
    method Remove(key: string) returns (removed: bool)
      requires Valid()
      modifies this
      ensures Valid()
      ensures nextId == old(nextId)
      ensures removed <==> old(Get(key)).Some?
      ensures removed ==> table == old(table) - {ParsePrefixId(key).value.1}
      ensures !removed ==> table == old(table)
      ensures Get(key) == None
    {
      match ParsePrefixId(key)
      case None =>
        return false;
      case Some(parsed) =>
        if parsed.0 != prefix {
          return false;
        }
        removed := parsed.1 in table;
        table := table - {parsed.1};
    }
  }

  /** A key made for another prefix never finds anything. */
  lemma OtherPrefixFindsNothing<V>(store: KvStoreBTree<V>, other: string, id: nat)
    requires other != store.prefix && id <= U64_MAX
    ensures store.Get(FormatKey(other, id)) == None
  {
    KeyRoundTrip(other, id);
  }

  /** A key whose tail is not a `u64` never finds anything. */
  lemma BadTailFindsNothing<V>(store: KvStoreBTree<V>, key: string)
    requires '_' !in key || (var k := LastIndexOf(key, '_'); k.Some? && ParseU64(key[k.value + 1..]).None?)
    ensures store.Get(key) == None
  {
  }

  /** The insert-and-get test: the first key of store "curve" is "curve_0", and "other_0" finds nothing. */
  method InsertAndGet() returns (key: string, got: Option<int>, other: Option<int>)
    ensures key == "curve_0" && got == Some(42) && other == None
  {
    var store := new KvStoreBTree<int>("curve");
    key := store.Insert(42);
    assert key == "curve_0";
    got := store.Get("curve_0");
    assert "other_0" == FormatKey("other", 0);
    OtherPrefixFindsNothing(store, "other", 0);
    other := store.Get("other_0");
  }

  /** The remove test: the first remove succeeds, the key then finds nothing, and a second remove fails. */
  method RemoveTwice() returns (before: Option<int>, first: bool, after: Option<int>, second: bool)
    ensures before == Some(123) && first && after == None && !second
  {
    var store := new KvStoreBTree<int>("foo");
    var key := store.Insert(123);
    assert key == "foo_0";
    before := store.Get("foo_0");
    first := store.Remove("foo_0");
    after := store.Get("foo_0");
    second := store.Remove("foo_0");
  }

  /** The multiple-inserts test: two inserts give different keys, each finding its own value. */
  method MultipleInserts() returns (id1: string, id2: string, got1: Option<int>, got2: Option<int>)
    ensures id1 != id2 && got1 == Some(1) && got2 == Some(2)
    ensures id1 == "bar_0" && id2 == "bar_1"
  {
    var store := new KvStoreBTree<int>("bar");
    id1 := store.Insert(1);
    id2 := store.Insert(2);
    assert id1 == "bar_0" && id2 == "bar_1";
    got1 := store.Get("bar_0");
    got2 := store.Get("bar_1");
  }
}
