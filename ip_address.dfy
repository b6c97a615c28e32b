/** `ip_validation`: a whole-string match against the IPv4 dotted-decimal
    pattern, then against the full eight-group IPv6 pattern (form 1 of
    section 2.2 of RFC 4291, without `::` compression or an IPv4 tail). */
module IpAddress {

  import opened Wrappers
  import opened Strings

  /** The two labels the classifier can return. */
  datatype IpKind = IPv4 | IPv6

  /** One IPv4 octet, as the alternation
      `[0-9]|[1-9][0-9]|1[0-9][0-9]|2[0-4][0-9]|25[0-5]` reads it. */
  predicate IsOctet(f: string)
  {
    (|f| == 1 && IsDigit(f[0]))
    || (|f| == 2 && '1' <= f[0] <= '9' && IsDigit(f[1]))
    || (|f| == 3 && f[0] == '1' && IsDigit(f[1]) && IsDigit(f[2]))
    || (|f| == 3 && f[0] == '2' && '0' <= f[1] <= '4' && IsDigit(f[2]))
    || (|f| == 3 && f[0] == '2' && f[1] == '5' && '0' <= f[2] <= '5')
  }

  /** One IPv6 group: `[0-9a-fA-F]{1,4}`. */
  predicate IsHexGroup(f: string)
  {
    1 <= |f| <= 4 && All(f, IsHexDigit)
  }

  /** The value of a decimal digit string. */
  function DecimalValue(f: string): nat
    requires All(f, IsDigit)
  {
    if f == [] then 0
    else 10 * DecimalValue(f[..|f| - 1]) + (f[|f| - 1] as int - '0' as int)
  }

  /** The octet alternation accepts exactly the decimal numbers 0 to 255
      written without a leading zero (a lone `0` is allowed). */
  lemma OctetIsByte(f: string)
    ensures IsOctet(f) <==>
      1 <= |f| <= 3 && All(f, IsDigit) && (f[0] == '0' ==> |f| == 1) && DecimalValue(f) <= 255
  {
    if 1 <= |f| <= 3 && All(f, IsDigit) {
      var d := seq(|f|, k requires 0 <= k < |f| => f[k] as int - '0' as int);
      assert DecimalValue(f[..1]) == d[0] by {
        assert f[..1][..0] == [];
      }
      if |f| >= 2 {
        assert f[..2][..1] == f[..1];
        assert DecimalValue(f[..2]) == 10 * d[0] + d[1];
      }
      if |f| == 3 {
        assert f[..3] == f;
        assert DecimalValue(f) == 100 * d[0] + 10 * d[1] + d[2];
      } else if |f| == 2 {
        assert f[..2] == f;
      } else {
        assert f[..1] == f;
      }
    }
  }

  /** `s` matches `P (sep P)*` with exactly `n` fields and nothing before or
      after: the shape of both anchored address patterns. */
  ghost predicate Fields(s: string, n: nat, sep: char, P: string -> bool)
    requires n >= 1
    decreases n
  {
    if n == 1 then P(s)
    else exists i :: 0 <= i < |s| && s[i] == sep && P(s[..i]) && Fields(s[i + 1..], n - 1, sep, P)
  }

  /** Every one of the fields matches `P`. */
  predicate AllFields(fs: seq<string>, P: string -> bool)
  {
    forall k :: 0 <= k < |fs| ==> P(fs[k])
  }

  /** Putting a matching field in front keeps every field matching. */
  lemma AllFieldsCons(head: string, rest: seq<string>, P: string -> bool)
    requires P(head) && AllFields(rest, P)
    ensures AllFields([head] + rest, P)
  {
    var fs := [head] + rest;
    forall k | 0 < k < |fs| ensures P(fs[k]) {
      assert fs[k] == rest[k - 1];
    }
  }

  /** A match of several fields has a first separator after its first field. */
  lemma FirstField(s: string, n: nat, sep: char, P: string -> bool) returns (i: nat)
    requires n >= 2 && Fields(s, n, sep, P)
    ensures i < |s| && s[i] == sep && P(s[..i]) && Fields(s[i + 1..], n - 1, sep, P)
  {
    i :| 0 <= i < |s| && s[i] == sep && P(s[..i]) && Fields(s[i + 1..], n - 1, sep, P);
  }

  /** A first field that cannot hold the separator ends at the first one. */
  lemma FirstFieldEndsAtSeparator(s: string, i: nat, sep: char)
    requires i < |s| && s[i] == sep && sep !in s[..i]
    ensures Split(s, sep) == [s[..i]] + Split(s[i + 1..], sep)
  {
    forall k | 0 <= k < i ensures s[k] != sep {
      assert s[k] == s[..i][k];
    }
    SplitAtFirst(s, sep, i);
  }

  /** A match of `n` fields cuts `s` exactly where splitting does. */
  lemma {:induction false} FieldsSplit(s: string, n: nat, sep: char, P: string -> bool)
    requires n >= 1
    requires forall f :: P(f) ==> sep !in f
    requires Fields(s, n, sep, P)
    ensures |Split(s, sep)| == n && AllFields(Split(s, sep), P)
    decreases n
  {
    if n == 1 {
      SplitNoSeparator(s, sep);
    } else {
      var i := FirstField(s, n, sep, P);
      FirstFieldEndsAtSeparator(s, i, sep);
      FieldsSplit(s[i + 1..], n - 1, sep, P);
      AllFieldsCons(s[..i], Split(s[i + 1..], sep), P);
    }
  }

  /** Splitting at the first separator peels off the first field. */
  lemma SplitFieldsStep(s: string, n: nat, sep: char, P: string -> bool) returns (i: nat)
    requires n >= 2
    requires |Split(s, sep)| == n && AllFields(Split(s, sep), P)
    ensures i < |s| && s[i] == sep && P(s[..i])
    ensures |Split(s[i + 1..], sep)| == n - 1 && AllFields(Split(s[i + 1..], sep), P)
  {
    var fs := Split(s, sep);
    i := FirstIndex(s, sep);
    assert i < |s|;
    var rest := Split(s[i + 1..], sep);
    assert fs == [s[..i]] + rest;
    forall k | 0 <= k < |rest| ensures P(rest[k]) {
      assert rest[k] == fs[k + 1];
    }
    assert fs[0] == s[..i];
  }

  /** Splitting into `n` fields that all match `P` is a match of `n` fields. */
  lemma {:induction false} SplitFields(s: string, n: nat, sep: char, P: string -> bool)
    requires n >= 1
    requires |Split(s, sep)| == n && AllFields(Split(s, sep), P)
    ensures Fields(s, n, sep, P)
    decreases n
  {
    if n == 1 {
      assert FirstIndex(s, sep) == |s|;
      assert Split(s, sep)[0] == s;
    } else {
      var i := SplitFieldsStep(s, n, sep, P);
      SplitFields(s[i + 1..], n - 1, sep, P);
    }
  }

  /** When no field can hold the separator, matching `n` fields is the same as
      splitting at every separator and finding `n` fields that all match. */
  lemma FieldsIffSplit(s: string, n: nat, sep: char, P: string -> bool)
    requires n >= 1
    requires forall f :: P(f) ==> sep !in f
    ensures Fields(s, n, sep, P) <==> |Split(s, sep)| == n && AllFields(Split(s, sep), P)
  {
    if Fields(s, n, sep, P) {
      FieldsSplit(s, n, sep, P);
    }
    if |Split(s, sep)| == n && AllFields(Split(s, sep), P) {
      SplitFields(s, n, sep, P);
    }
  }

  /** A character that no field can hold and that is not the separator does
      not occur in a string made of such fields. */
  lemma FieldsExclude(s: string, n: nat, sep: char, P: string -> bool, c: char)
    requires n >= 1 && c != sep
    requires forall f :: P(f) ==> sep !in f && c !in f
    requires Fields(s, n, sep, P)
    ensures c !in s
  {
    FieldsSplit(s, n, sep, P);
    var fs := Split(s, sep);
    assert forall k :: 0 <= k < |fs| ==> c !in fs[k];
    JoinExcludes(fs, sep, c);
    JoinSplit(s, sep);
  }

  /** Fields that all match `P`, joined with `sep`, form a match of that
      many fields. */
  lemma {:induction false} FieldsOfJoin(fs: seq<string>, sep: char, P: string -> bool)
    requires |fs| >= 1 && AllFields(fs, P)
    ensures Fields(Join(fs, sep), |fs|, sep, P)
    decreases |fs|
  {
    if |fs| > 1 {
      var head, rest := fs[0], fs[1..];
      assert AllFields(rest, P) by {
        forall k | 0 <= k < |rest| ensures P(rest[k]) {
          assert rest[k] == fs[k + 1];
        }
      }
      FieldsOfJoin(rest, sep, P);
      var s, i := Join(fs, sep), |head|;
      assert s == head + [sep] + Join(rest, sep);
      assert s[..i] == head && s[i + 1..] == Join(rest, sep) && s[i] == sep;
    }
  }

  /** A match of more than one field holds the separator. */
  lemma FieldsHoldSeparator(s: string, n: nat, sep: char, P: string -> bool)
    requires n >= 2 && Fields(s, n, sep, P)
    ensures sep in s
  {
  }

  /** `^O\.O\.O\.O$` with `O` the octet alternation. */
  ghost predicate IsIPv4(s: string)
  {
    Fields(s, 4, '.', IsOctet)
  }

  /** `^H:H:H:H:H:H:H:H$` with `H` the hex group. */
  ghost predicate IsIPv6(s: string)
  {
    Fields(s, 8, ':', IsHexGroup)
  }

  lemma OctetHasNoSeparator()
    ensures forall f :: IsOctet(f) ==> '.' !in f && ':' !in f
  {
  }

  lemma HexGroupHasNoSeparator()
    ensures forall f :: IsHexGroup(f) ==> '.' !in f && ':' !in f
  {
  }

  /** No string is both an IPv4 and an IPv6 address, so testing IPv4 first
      never hides an IPv6 address. */
  lemma IPv4AndIPv6Disjoint(s: string)
    ensures !(IsIPv4(s) && IsIPv6(s))
  {
    if IsIPv6(s) {
      HexGroupHasNoSeparator();
      FieldsExclude(s, 8, ':', IsHexGroup, '.');
    }
  }

  /** Four octets joined by dots are classified as IPv4. */
  lemma JoinedOctetsAreIPv4(fs: seq<string>)
    requires |fs| == 4 && AllFields(fs, IsOctet)
    ensures IpValidation(Join(fs, '.')) == Some(IPv4)
  {
    FieldsOfJoin(fs, '.', IsOctet);
  }

  /** Eight hex groups joined by colons are classified as IPv6. */
  lemma JoinedHexGroupsAreIPv6(fs: seq<string>)
    requires |fs| == 8 && AllFields(fs, IsHexGroup)
    ensures IpValidation(Join(fs, ':')) == Some(IPv6)
  {
    FieldsOfJoin(fs, ':', IsHexGroup);
    IPv4AndIPv6Disjoint(Join(fs, ':'));
  }

  /** A string with neither separator gets no label. */
  lemma NoSeparatorRejected(s: string)
    requires '.' !in s && ':' !in s
    ensures IpValidation(s) == None
  {
    if IsIPv4(s) {
      FieldsHoldSeparator(s, 4, '.', IsOctet);
    }
    if IsIPv6(s) {
      FieldsHoldSeparator(s, 8, ':', IsHexGroup);
    }
  }

  /** A string holding a character that is neither a hex digit nor a
      separator gets no label. */
  lemma ForeignCharRejected(s: string, c: char)
    requires c in s && !IsHexDigit(c) && c != '.' && c != ':'
    ensures IpValidation(s) == None
  {
    OctetHasNoSeparator();
    HexGroupHasNoSeparator();
    assert forall f :: IsOctet(f) ==> c !in f;
    assert forall f :: IsHexGroup(f) ==> c !in f;
    if IsIPv4(s) {
      FieldsExclude(s, 4, '.', IsOctet, c);
    }
    if IsIPv6(s) {
      FieldsExclude(s, 8, ':', IsHexGroup, c);
    }
  }

  /** `ip_validation`: `IPv4` exactly when the whole string is four octets
      joined by dots; otherwise `IPv6` exactly when it is eight hex groups
      joined by colons; otherwise no label. */
  function IpValidation(s: string): (r: Option<IpKind>)
    ensures r == Some(IPv4) <==> IsIPv4(s)
    ensures r == Some(IPv6) <==> !IsIPv4(s) && IsIPv6(s)
    ensures r == None <==> !IsIPv4(s) && !IsIPv6(s)
  {
    OctetHasNoSeparator();
    HexGroupHasNoSeparator();
    FieldsIffSplit(s, 4, '.', IsOctet);
    FieldsIffSplit(s, 8, ':', IsHexGroup);
    var v4 := Split(s, '.');
    var v6 := Split(s, ':');
    if |v4| == 4 && AllFields(v4, IsOctet) then Some(IPv4)
    else if |v6| == 8 && AllFields(v6, IsHexGroup) then Some(IPv6)
    else None
  }
}
