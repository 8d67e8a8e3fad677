/** The unique key of a song across the network (SongMetadataUtils): the
    address of the device that holds it with every ':' removed, then '_',
    then the song id in decimal. */
module SongMetadataUtils {

  /** A Java `long`. */
  type long = x: int | -0x8000_0000_0000_0000 <= x < 0x8000_0000_0000_0000

  /** The two fields of a song's metadata that make up its key. */
  datatype SongMetadata = SongMetadata(macAddress: string, id: long)

  // ---------------------------------------------------------------------
  // Removing the colons of an address (String.replace(":", ""))
  // ---------------------------------------------------------------------

  function RemoveColons(s: string): (r: string)
    ensures ':' !in r
    ensures |r| <= |s|
    decreases |s|
  {
    if |s| == 0 then []
    else (if s[0] == ':' then [] else [s[0]]) + RemoveColons(s[1..])
  }

  /** Removing colons from a concatenation removes them from each part. */
  lemma {:induction false} RemoveColonsAppend(a: string, b: string)
    ensures RemoveColons(a + b) == RemoveColons(a) + RemoveColons(b)
    decreases |a|
  {
    if |a| > 0 {
      assert (a + b)[0] == a[0];
      assert (a + b)[1..] == a[1..] + b;
      RemoveColonsAppend(a[1..], b);
    } else {
      assert a + b == b;
    }
  }

  /** A string is left as it is exactly when it holds no colon. */
  lemma {:induction false} RemoveColonsIdentity(s: string)
    ensures RemoveColons(s) == s <==> ':' !in s
    decreases |s|
  {
    if |s| > 0 {
      RemoveColonsIdentity(s[1..]);
      if s[0] == ':' {
        assert |RemoveColons(s)| < |s|;
      } else {
        assert s == [s[0]] + s[1..];
      }
    }
  }

  /** Removing colons twice is removing them once. */
  lemma RemoveColonsIdempotent(s: string)
    ensures RemoveColons(RemoveColons(s)) == RemoveColons(s)
  {
    RemoveColonsIdentity(RemoveColons(s));
  }

  /** Every character other than ':' is kept as often as it occurs; ':' is
      never kept. */
  lemma {:induction false} RemoveColonsCounts(s: string, c: char)
    ensures multiset(RemoveColons(s))[c] == if c == ':' then 0 else multiset(s)[c]
    decreases |s|
  {
    if |s| > 0 {
      RemoveColonsCounts(s[1..], c);
      assert s == [s[0]] + s[1..];
      assert multiset(s) == multiset([s[0]]) + multiset(s[1..]);
    }
  }

  // ---------------------------------------------------------------------
  // Decimal rendering of a long (string concatenation of a long)
  // ---------------------------------------------------------------------

  function DigitChar(d: int): (c: char)
    requires 0 <= d < 10
    ensures '0' <= c <= '9'
  {
    ['0', '1', '2', '3', '4', '5', '6', '7', '8', '9'][d]
  }

  function DigitValue(c: char): (d: int)
    requires '0' <= c <= '9'
    ensures 0 <= d < 10
  {
    (c - '0') as int
  }

  predicate IsDigits(s: string) {
    forall i :: 0 <= i < |s| ==> '0' <= s[i] <= '9'
  }

  /** The decimal digits of `n`, most significant first, without leading
      zeros. */
  function NatToDecimal(n: nat): (r: string)
    ensures |r| > 0 && IsDigits(r)
    ensures r[0] == '0' ==> n == 0
    decreases n
  {
    if n < 10 then [DigitChar(n)] else NatToDecimal(n / 10) + [DigitChar(n % 10)]
  }

  /** Long.toString: a '-' before the digits of a negative number. */
  function LongToString(n: long): (r: string)
    ensures '_' !in r && ':' !in r
  {
    var v: int := n;
    if v < 0 then "-" + NatToDecimal(-v) else NatToDecimal(v)
  }

  /** The value of a string of decimal digits. */
  function DecimalValue(s: string): (n: nat)
    requires IsDigits(s)
    decreases |s|
  {
    if |s| == 0 then 0 else DecimalValue(s[..|s| - 1]) * 10 + DigitValue(s[|s| - 1])
  }

  /** Long.parseLong on what LongToString produces. */
  function ParseLong(s: string): int
    requires |s| > 0
    requires IsDigits(if s[0] == '-' then s[1..] else s)
  {
    var v: int := if s[0] == '-' then DecimalValue(s[1..]) else DecimalValue(s);
    if s[0] == '-' then -v else v
  }

  lemma DigitRoundTrip(d: int)
    requires 0 <= d < 10
    ensures DigitValue(DigitChar(d)) == d
  {
  }

  lemma {:induction false} DecimalRoundTrip(n: nat)
    ensures DecimalValue(NatToDecimal(n)) == n
    decreases n
  {
    DigitRoundTrip(n % 10);
    if n >= 10 {
      var r := NatToDecimal(n);
      DecimalRoundTrip(n / 10);
      assert r[..|r| - 1] == NatToDecimal(n / 10);
    }
  }

  /** Decimal rendering is undone by parsing, so distinct ids render
      differently. */
  lemma LongRoundTrip(n: long)
    ensures var s := LongToString(n);
      |s| > 0 && IsDigits(if s[0] == '-' then s[1..] else s) && ParseLong(s) == n
  {
    var s := LongToString(n);
    var v: int := n;
    if v < 0 {
      assert s[1..] == NatToDecimal(-v);
      DecimalRoundTrip(-v);
    } else {
      DecimalRoundTrip(n);
    }
  }

  lemma LongToStringInjective(a: long, b: long)
    ensures LongToString(a) == LongToString(b) <==> a == b
  {
    LongRoundTrip(a);
    LongRoundTrip(b);
  }

  // ---------------------------------------------------------------------
  // The key
  // ---------------------------------------------------------------------

  /** getUniqueKey(songSourceAddress, songId). */
  function GetUniqueKey(songSourceAddress: string, songId: long): (key: string)
    ensures |key| == |RemoveColons(songSourceAddress)| + 1 + |LongToString(songId)|
    ensures ':' !in key
  {
    RemoveColons(songSourceAddress) + "_" + LongToString(songId)
  }

  /** getUniqueKey(song): the key of the song's address and id, which splits
      back into the song's colon-free address and its decimal id. */
  function GetSongKey(song: SongMetadata): (key: string)
    ensures key == GetUniqueKey(song.macAddress, song.id)
    ensures SplitKey(key) == (RemoveColons(song.macAddress), LongToString(song.id))
  {
    SplitKeyOfUniqueKey(song.macAddress, song.id);
    GetUniqueKey(song.macAddress, song.id)
  }

  /** The position of the last occurrence of `c` in `s`, or -1. */
  function LastIndexOf(s: string, c: char): (i: int)
    ensures -1 <= i < |s|
    ensures 0 <= i ==> s[i] == c
    ensures forall j :: i < j < |s| ==> s[j] != c
    decreases |s|
  {
    if |s| == 0 then -1
    else if s[|s| - 1] == c then |s| - 1
    else LastIndexOf(s[..|s| - 1], c)
  }

  /** Splitting a key at its last '_': the part before and the part after. */
  function SplitKey(key: string): (r: (string, string))
    ensures '_' in key ==> key == r.0 + "_" + r.1
  {
    var i := LastIndexOf(key, '_');
    if i < 0 then (key, "") else (key[..i], key[i + 1..])
  }

  /** The separator of a key is its last '_': before it stands the address
      without colons, after it exactly the decimal song id, whatever '_'
      the address itself holds. */
  lemma SplitKeyOfUniqueKey(songSourceAddress: string, songId: long)
    ensures SplitKey(GetUniqueKey(songSourceAddress, songId))
         == (RemoveColons(songSourceAddress), LongToString(songId))
  {
    var a := RemoveColons(songSourceAddress);
    var d := LongToString(songId);
    var key := GetUniqueKey(songSourceAddress, songId);
    assert key[|a|] == '_';
    assert key[..|a|] == a;
    assert key[|a| + 1..] == d;
  }

  /** The song id can be read back from a key. */
  lemma SongIdFromKey(songSourceAddress: string, songId: long)
    ensures var tail := SplitKey(GetUniqueKey(songSourceAddress, songId)).1;
      |tail| > 0 && IsDigits(if tail[0] == '-' then tail[1..] else tail) && ParseLong(tail) == songId
  {
    SplitKeyOfUniqueKey(songSourceAddress, songId);
    LongRoundTrip(songId);
  }

  /** Two keys are equal exactly when the addresses agree once their colons
      are removed and the ids agree. */
  lemma UniqueKeyInjective(a1: string, id1: long, a2: string, id2: long)
    ensures GetUniqueKey(a1, id1) == GetUniqueKey(a2, id2)
        <==> RemoveColons(a1) == RemoveColons(a2) && id1 == id2
  {
    SplitKeyOfUniqueKey(a1, id1);
    SplitKeyOfUniqueKey(a2, id2);
    LongToStringInjective(id1, id2);
  }

  /** Two songs share a key exactly when they come from the same address,
      up to colons, and have the same id. */
  lemma SongKeyInjective(s1: SongMetadata, s2: SongMetadata)
    ensures GetSongKey(s1) == GetSongKey(s2)
        <==> RemoveColons(s1.macAddress) == RemoveColons(s2.macAddress) && s1.id == s2.id
  {
    UniqueKeyInjective(s1.macAddress, s1.id, s2.macAddress, s2.id);
  }

  /** An address written as two colon-free parts joined by ':' keys as the
      two parts run together. */
  lemma RemoveColonsOfJoined(a: string, b: string)
    requires ':' !in a && ':' !in b
    ensures RemoveColons(a + ":" + b) == a + b
  {
    RemoveColonsAppend(a + ":", b);
    RemoveColonsAppend(a, ":");
    RemoveColonsIdentity(a);
    RemoveColonsIdentity(b);
    assert RemoveColons(":") == [] by {
      assert ":"[1..] == [];
    }
    assert RemoveColons(a + ":") == a;
  }

  /** The id 42 is rendered "42", and -7 is rendered "-7". */
  lemma DecimalExamples()
    ensures LongToString(42) == "42"
    ensures LongToString(-7) == "-7"
  {
    assert NatToDecimal(4) == "4";
    assert NatToDecimal(42) == NatToDecimal(4) + [DigitChar(2)];
    assert NatToDecimal(7) == "7";
  }
}
