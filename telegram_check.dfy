/**
 * The check of the Mini App's init data (Telegram Bot API, "Validating
 * data received via the Mini App"): every field but `hash`, sorted by key
 * and written `key=value` one per line, is signed with HMAC-SHA-256 under a
 * secret derived from the bot token; the data is accepted when the hex of
 * that signature is the `hash` field, and the user id is then read out of
 * the `user` field.
 *
 * Query parsing, HMAC-SHA-256, hex encoding and JSON decoding are not part
 * of this model: the parsed query is an input, and the other three are
 * function parameters.
 */
module TelegramCheck {
  import opened Wrappers
  import Text
  import Cardinality

  /** `url.Values`: each key with its values, in query order. */
  type Values = map<string, seq<string>>

  /** `Values.Get`: the first value of `key`, or "" when it has none. */
  function Get(values: Values, key: string): (v: string)
    ensures key in values && |values[key]| > 0 ==> v == values[key][0]
    ensures !(key in values && |values[key]| > 0) ==> v == ""
  {
    if key in values && |values[key]| > 0 then values[key][0] else ""
  }

  // ----- sort.Strings -----

  /** Ascending in the byte order of `sort.Strings`, duplicates allowed. */
  predicate Sorted(s: seq<string>)
  {
    forall i, j :: 0 <= i < j < |s| ==> !Text.Less(s[j], s[i])
  }

  /** Strictly ascending: sorted and without duplicates. */
  predicate Ascending(s: seq<string>)
  {
    forall i, j :: 0 <= i < j < |s| ==> Text.Less(s[i], s[j])
  }

  /** `x` placed into the sorted `s` after every element not above it. */
  function Insert(s: seq<string>, x: string): (r: seq<string>)
    requires Sorted(s)
    ensures multiset(r) == multiset(s) + multiset{x}
    ensures Sorted(r)
    decreases |s|
  {
    if s == [] then [x]
    else if !Text.Less(x, s[0]) then
      var rest := Insert(s[1..], x);
      InsertHead(s, x, rest);
      [s[0]] + rest
    else
      InsertFront(s, x);
      [x] + s
  }

  lemma InsertHead(s: seq<string>, x: string, rest: seq<string>)
    requires Sorted(s) && s != [] && !Text.Less(x, s[0])
    requires multiset(rest) == multiset(s[1..]) + multiset{x} && Sorted(rest)
    ensures multiset([s[0]] + rest) == multiset(s) + multiset{x}
    ensures Sorted([s[0]] + rest)
  {
    assert s == [s[0]] + s[1..];
    var r := [s[0]] + rest;
    forall j | 1 <= j < |r| ensures !Text.Less(r[j], s[0]) {
      assert r[j] in multiset(rest);
      if r[j] == x {
      } else {
        assert r[j] in multiset(s[1..]);
        var i :| 0 <= i < |s[1..]| && s[1..][i] == r[j];
        assert s[i + 1] == r[j];
      }
    }
  }

  lemma InsertFront(s: seq<string>, x: string)
    requires Sorted(s) && s != [] && Text.Less(x, s[0])
    ensures Sorted([x] + s)
  {
    forall j | 0 <= j < |s| ensures !Text.Less(s[j], x) {
      if j > 0 {
        assert !Text.Less(s[j], s[0]);
        if Text.Less(s[j], x) {
          Text.LessTransitive(s[j], x, s[0]);
        }
      } else {
        if Text.Less(s[0], x) {
          Text.LessTransitive(x, s[0], x);
          Text.LessIrreflexive(x);
        }
      }
    }
  }

  /** `sort.Strings`: the same strings, sorted. */
  method SortStrings(keys: seq<string>) returns (sorted: seq<string>)
    ensures multiset(sorted) == multiset(keys)
    ensures Sorted(sorted)
  {
    sorted := [];
    var k := 0;
    while k < |keys|
      invariant 0 <= k <= |keys|
      invariant multiset(sorted) == multiset(keys[..k]) && Sorted(sorted)
    {
      assert keys[..k + 1] == keys[..k] + [keys[k]];
      sorted := Insert(sorted, keys[k]);
      k := k + 1;
    }
    assert keys[..k] == keys;
  }

  /** Sorted distinct strings are in strictly ascending order. */
  lemma SortedDistinct(s: seq<string>)
    requires Sorted(s)
    requires forall i, j :: 0 <= i < j < |s| ==> s[i] != s[j]
    ensures Ascending(s)
  {
    forall i, j | 0 <= i < j < |s| ensures Text.Less(s[i], s[j]) {
      Text.LessTotal(s[i], s[j]);
    }
  }

  /** Two strictly ascending sequences of the same strings are the same sequence. */
  lemma {:induction false} AscendingUnique(a: seq<string>, b: seq<string>)
    requires Ascending(a) && Ascending(b)
    requires forall x :: x in a <==> x in b
    ensures a == b
    decreases |a|
  {
    if a != [] && b != [] {
      Text.LessIrreflexive(a[0]);
      Text.LessIrreflexive(b[0]);
      if a[0] != b[0] {
        assert b[0] in a && a[0] in b;
        var i :| 0 <= i < |a| && a[i] == b[0];
        var j :| 0 <= j < |b| && b[j] == a[0];
        assert i > 0 && j > 0;
        Text.LessTransitive(a[0], b[0], a[0]);
      }
      forall x ensures x in a[1..] <==> x in b[1..] {
        if x in a[1..] {
          var i :| 1 <= i < |a| && a[i] == x;
          assert x != a[0] && x in b;
          var j :| 0 <= j < |b| && b[j] == x;
          assert b[1..][j - 1] == x;
        }
        if x in b[1..] {
          var i :| 1 <= i < |b| && b[i] == x;
          assert x != b[0] && x in a;
          var j :| 0 <= j < |a| && a[j] == x;
          assert a[1..][j - 1] == x;
        }
      }
      AscendingUnique(a[1..], b[1..]);
      assert a == [a[0]] + a[1..] && b == [b[0]] + b[1..];
    } else if a != [] {
      Head(a);
      assert false;
    } else if b != [] {
      Head(b);
      assert false;
    }
  }

  lemma Head(s: seq<string>)
    requires s != []
    ensures s[0] in s
  {
  }

  // ----- the data-check string -----

  /** One line of the data-check string. */
  function Entry(values: Values, key: string): string
  {
    key + "=" + Get(values, key)
  }

  function Entries(values: Values, keys: seq<string>): (lines: seq<string>)
    ensures |lines| == |keys|
    ensures forall k :: 0 <= k < |keys| ==> lines[k] == Entry(values, keys[k])
  {
    seq(|keys|, k requires 0 <= k < |keys| => Entry(values, keys[k]))
  }

  /** The data-check string over `keys`, in that order. */
  function CheckString(values: Values, keys: seq<string>): string
  {
    Text.Join(Entries(values, keys), "\n")
  }

  /** The signature the data should carry: HMAC keyed by HMAC("WebAppData", bot token), in hex. */
  function Expected(values: Values, keys: seq<string>, botToken: string,
                    mac: (string, string) -> string, hex: string -> string): string
  {
    hex(mac(mac("WebAppData", botToken), CheckString(values, keys)))
  }

  /** The keys that are signed: all but `hash`, strictly ascending. */
  ghost predicate SignedKeys(values: Values, keys: seq<string>)
  {
    Ascending(keys) && forall k :: k in keys <==> k in values && k != "hash"
  }

  /**
   * `verifyTelegram`: a query that does not parse gives its error; a
   * signature that differs from the `hash` field gives "invalid hash";
   * otherwise the id decoded from the `user` field, or the decoding error.
   * Every failure comes with id 0.
   */
  method VerifyTelegram(parsed: Result<Values>, botToken: string, mac: (string, string) -> string,
                        hex: string -> string, decodeUser: string -> Result<int>)
    returns (userId: int, err: Option<string>, ghost keys: seq<string>)
    ensures parsed.Err? ==> userId == 0 && err == Some(parsed.error)
    ensures parsed.Ok? ==> SignedKeys(parsed.value, keys)
    ensures parsed.Ok? && Expected(parsed.value, keys, botToken, mac, hex) != Get(parsed.value, "hash") ==>
      userId == 0 && err == Some("invalid hash")
    ensures parsed.Ok? && Expected(parsed.value, keys, botToken, mac, hex) == Get(parsed.value, "hash") ==>
      var user := decodeUser(Get(parsed.value, "user"));
      (user.Ok? ==> userId == user.value && err == None) && (user.Err? ==> userId == 0 && err == Some(user.error))
  {
    keys := [];
    if parsed.Err? {
      return 0, Some(parsed.error), keys;
    }
    var values := parsed.value;
    var receivedHash := Get(values, "hash");
    values := values - {"hash"};

    var collected := MapKeys(values);
    var sorted := SortStrings(collected);
    DistinctAfterSort(collected, sorted);
    SortedDistinct(sorted);
    keys := sorted;
    var dataCheck := CheckLines(values, sorted);
    assert Entries(values, sorted) == Entries(parsed.value, sorted);
    var dataStr := Text.Join(dataCheck, "\n");

    var secret := mac("WebAppData", botToken);
    var expectedHash := hex(mac(secret, dataStr));
    if expectedHash != receivedHash {
      return 0, Some("invalid hash"), keys;
    }
    var user := decodeUser(Get(values, "user"));
    if user.Err? {
      return 0, Some(user.error), keys;
    }
    return user.value, None, keys;
  }

  /** `for k := range values`: every key once, in whatever order the map hands them out. */
  method MapKeys(values: Values) returns (keys: seq<string>)
    ensures forall k :: k in keys <==> k in values
    ensures forall i, j :: 0 <= i < j < |keys| ==> keys[i] != keys[j]
  {
    keys := [];
    var remaining := values.Keys;
    while remaining != {}
      invariant forall k :: k in keys <==> k in values && k !in remaining
      invariant remaining <= values.Keys
      invariant forall i, j :: 0 <= i < j < |keys| ==> keys[i] != keys[j]
      decreases |remaining|
    {
      ghost var w := Cardinality.Pick(remaining);
      var k :| k in remaining;
      keys := keys + [k];
      remaining := remaining - {k};
    }
  }

  /** The `key=value` lines of the keys, in their order. */
  method CheckLines(values: Values, keys: seq<string>) returns (lines: seq<string>)
    ensures lines == Entries(values, keys)
  {
    lines := [];
    var i := 0;
    while i < |keys|
      invariant 0 <= i <= |keys|
      invariant lines == Entries(values, keys[..i])
    {
      lines := lines + [keys[i] + "=" + Get(values, keys[i])];
      i := i + 1;
    }
    assert keys[..i] == keys;
  }

  /** Sorting keeps the strings, so distinct strings stay distinct. */
  lemma DistinctAfterSort(a: seq<string>, b: seq<string>)
    requires multiset(a) == multiset(b)
    requires forall i, j :: 0 <= i < j < |a| ==> a[i] != a[j]
    ensures forall x :: x in a <==> x in b
    ensures forall i, j :: 0 <= i < j < |b| ==> b[i] != b[j]
  {
    forall x ensures x in a <==> x in b {
      assert x in a <==> x in multiset(a);
      assert x in b <==> x in multiset(b);
    }
    forall i, j | 0 <= i < j < |b| ensures b[i] != b[j] {
      if b[i] == b[j] {
        CountTwice(b, i, j);
        CountOnce(a, b[i]);
      }
    }
  }

  lemma CountTwice(s: seq<string>, i: int, j: int)
    requires 0 <= i < j < |s| && s[i] == s[j]
    ensures multiset(s)[s[i]] >= 2
  {
    assert s == s[..i] + [s[i]] + s[i + 1..j] + [s[j]] + s[j + 1..];
  }

  lemma {:induction false} CountOnce(s: seq<string>, x: string)
    requires forall i, j :: 0 <= i < j < |s| ==> s[i] != s[j]
    ensures multiset(s)[x] <= 1
    decreases |s|
  {
    if s != [] {
      CountOnce(s[1..], x);
      assert s == [s[0]] + s[1..];
      if s[0] == x {
        assert x !in s[1..];
      }
    }
  }

  // ----- what the check string promises -----

  /** The check string does not depend on the order in which the map handed out its keys. */
  lemma CheckStringDetermined(values: Values, keys1: seq<string>, keys2: seq<string>)
    requires SignedKeys(values, keys1) && SignedKeys(values, keys2)
    ensures CheckString(values, keys1) == CheckString(values, keys2)
  {
    AscendingUnique(keys1, keys2);
  }

  /** The received `hash` field is not signed: replacing it leaves the check string alone. */
  lemma HashNotSigned(values: Values, keys: seq<string>, forged: seq<string>)
    requires SignedKeys(values, keys)
    ensures SignedKeys(values["hash" := forged], keys)
    ensures CheckString(values["hash" := forged], keys) == CheckString(values, keys)
  {
    assert Entries(values["hash" := forged], keys) == Entries(values, keys);
  }

  /**
   * With no line feed in any signed key or value, the check string holds
   * exactly one line per signed key, in ascending key order.
   */
  lemma CheckStringLines(values: Values, keys: seq<string>)
    requires SignedKeys(values, keys) && |keys| >= 1
    requires forall k :: 0 <= k < |keys| ==> '\n' !in keys[k] && '\n' !in Get(values, keys[k])
    ensures Text.Split(CheckString(values, keys), '\n') == Entries(values, keys)
  {
    var lines := Entries(values, keys);
    forall k | 0 <= k < |lines| ensures '\n' !in lines[k] {
      assert lines[k] == keys[k] + "=" + Get(values, keys[k]);
    }
    Text.SplitJoin(lines, '\n');
  }
}
