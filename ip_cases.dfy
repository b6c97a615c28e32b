/** The expected values of the unit tests of `ip_validation`. The IPv4
    addresses are written field by field and the IPv6 addresses as two
    halves joined by `:`, which keeps the verifier from evaluating the
    classifier on the whole literal. */
module IpCases {

  import opened Wrappers
  import opened Strings
  import opened IpAddress

  /** Four fields joined with a separator, written out. */
  lemma JoinFour(a: string, b: string, c: string, d: string, sep: char)
    ensures Join([a, b, c, d], sep) == a + [sep] + b + [sep] + c + [sep] + d
  {
    var fs := [a, b, c, d];
    assert fs[1..] == [b, c, d] && [b, c, d][1..] == [c, d] && [c, d][1..] == [d];
    assert Join([c, d], sep) == c + [sep] + d;
    assert Join([b, c, d], sep) == b + [sep] + (c + [sep] + d);
    assert Join(fs, sep) == a + [sep] + (b + [sep] + (c + [sep] + d));
  }

  lemma FirstQuadFields()
    ensures AllFields(["22", "231", "113", "164"], IsOctet)
    ensures Join(["22", "231", "113", "164"], '.') == "22" + "." + "231" + "." + "113" + "." + "164"
  {
    JoinFour("22", "231", "113", "164", '.');
  }

  lemma FirstDottedQuad()
    ensures IpValidation("22" + "." + "231" + "." + "113" + "." + "164") == Some(IPv4)
  {
    FirstQuadFields();
    JoinedOctetsAreIPv4(["22", "231", "113", "164"]);
  }

  lemma SecondQuadFields()
    ensures AllFields(["222", "231", "113", "64"], IsOctet)
    ensures Join(["222", "231", "113", "64"], '.') == "222" + "." + "231" + "." + "113" + "." + "64"
  {
    JoinFour("222", "231", "113", "64", '.');
  }

  lemma SecondDottedQuad()
    ensures IpValidation("222" + "." + "231" + "." + "113" + "." + "64") == Some(IPv4)
  {
    SecondQuadFields();
    JoinedOctetsAreIPv4(["222", "231", "113", "64"]);
  }

  lemma FirstHalvesJoined()
    ensures Join(["1051", "1000", "4000", "abcd"], ':') == "1051:1000:4000:abcd"
    ensures Join(["5", "600", "300c", "326b"], ':') == "5:600:300c:326b"
  {
    JoinFour("1051", "1000", "4000", "abcd", ':');
    JoinFour("5", "600", "300c", "326b", ':');
  }

  lemma FirstGroupsAreHex()
    ensures AllFields(["1051", "1000", "4000", "abcd", "5", "600", "300c", "326b"], IsHexGroup)
  {
  }

  lemma FirstGroupsJoined(fs: seq<string>)
    requires fs == ["1051", "1000", "4000", "abcd", "5", "600", "300c", "326b"]
    ensures Join(fs, ':') == "1051:1000:4000:abcd" + ":" + "5:600:300c:326b"
  {
    var xs, ys := ["1051", "1000", "4000", "abcd"], ["5", "600", "300c", "326b"];
    assert fs == xs + ys;
    JoinAppend(xs, ys, ':');
    FirstHalvesJoined();
  }

  lemma FirstEightGroups()
    ensures IpValidation("1051:1000:4000:abcd" + ":" + "5:600:300c:326b") == Some(IPv6)
  {
    var fs := ["1051", "1000", "4000", "abcd", "5", "600", "300c", "326b"];
    FirstGroupsAreHex();
    FirstGroupsJoined(fs);
    JoinedHexGroupsAreIPv6(fs);
  }

  lemma SecondHalvesJoined()
    ensures Join(["1050", "1000", "2000", "ab00"], ':') == "1050:1000:2000:ab00"
    ensures Join(["5", "600", "300c", "326a"], ':') == "5:600:300c:326a"
  {
    JoinFour("1050", "1000", "2000", "ab00", ':');
    JoinFour("5", "600", "300c", "326a", ':');
  }

  lemma SecondGroupsAreHex()
    ensures AllFields(["1050", "1000", "2000", "ab00", "5", "600", "300c", "326a"], IsHexGroup)
  {
  }

  lemma SecondGroupsJoined(fs: seq<string>)
    requires fs == ["1050", "1000", "2000", "ab00", "5", "600", "300c", "326a"]
    ensures Join(fs, ':') == "1050:1000:2000:ab00" + ":" + "5:600:300c:326a"
  {
    var xs, ys := ["1050", "1000", "2000", "ab00"], ["5", "600", "300c", "326a"];
    assert fs == xs + ys;
    JoinAppend(xs, ys, ':');
    SecondHalvesJoined();
  }

  lemma SecondEightGroups()
    ensures IpValidation("1050:1000:2000:ab00" + ":" + "5:600:300c:326a") == Some(IPv6)
  {
    var fs := ["1050", "1000", "2000", "ab00", "5", "600", "300c", "326a"];
    SecondGroupsAreHex();
    SecondGroupsJoined(fs);
    JoinedHexGroupsAreIPv6(fs);
  }

  lemma JunkRejected()
    ensures IpValidation("This line has junk text.") == None
  {
    var s := "This line has junk text.";
    assert s[0] == 'T';
    ForeignCharRejected(s, 'T');
  }

  lemma BareNumberRejected()
    ensures IpValidation("35") == None
  {
    NoSeparatorRejected("35");
  }

  lemma IpValidationCases()
    ensures IpValidation("This line has junk text.") == None
    ensures IpValidation("35") == None
    ensures IpValidation("1051:1000:4000:abcd" + ":" + "5:600:300c:326b") == Some(IPv6)
    ensures IpValidation("1050:1000:2000:ab00" + ":" + "5:600:300c:326a") == Some(IPv6)
    ensures IpValidation("22" + "." + "231" + "." + "113" + "." + "164") == Some(IPv4)
    ensures IpValidation("222" + "." + "231" + "." + "113" + "." + "64") == Some(IPv4)
  {
    JunkRejected();
    BareNumberRejected();
    FirstEightGroups();
    SecondEightGroups();
    FirstDottedQuad();
    SecondDottedQuad();
  }
}
