/** The static table of HPACK (appendix A of RFC 7541): `static_entries` and its by-name map. */
module HpackStatic {
  import opened BitStrings
  import opened HpackTable

  datatype Predefined = Predefined(key: string, value: Option<string>)

  const STATIC_COUNT: nat := 61

  function Static(index: nat): Predefined {
    match index
    case 1 => Predefined(":authority", None)
    case 2 => Predefined(":method", Some("GET"))
    case 3 => Predefined(":method", Some("POST"))
    case 4 => Predefined(":path", Some("/"))
    case 5 => Predefined(":path", Some("/index.html"))
    case 6 => Predefined(":scheme", Some("http"))
    case 7 => Predefined(":scheme", Some("https"))
    case 8 => Predefined(":status", Some("200"))
    case 9 => Predefined(":status", Some("204"))
    case 10 => Predefined(":status", Some("206"))
    case 11 => Predefined(":status", Some("304"))
    case 12 => Predefined(":status", Some("400"))
    case 13 => Predefined(":status", Some("404"))
    case 14 => Predefined(":status", Some("500"))
    case 15 => Predefined("accept-charset", None)
    case 16 => Predefined("accept-encoding", Some("gzip, deflate"))
    case 17 => Predefined("accept-language", None)
    case 18 => Predefined("accept-ranges", None)
    case 19 => Predefined("accept", None)
    case 20 => Predefined("access-control-allow-origin", None)
    case 21 => Predefined("age", None)
    case 22 => Predefined("allow", None)
    case 23 => Predefined("authorization", None)
    case 24 => Predefined("cache-control", None)
    case 25 => Predefined("content-disposition", None)
    case 26 => Predefined("content-encoding", None)
    case 27 => Predefined("content-language", None)
    case 28 => Predefined("content-length", None)
    case 29 => Predefined("content-location", None)
    case 30 => Predefined("content-range", None)
    case 31 => Predefined("content-type", None)
    case 32 => Predefined("cookie", None)
    case 33 => Predefined("date", None)
    case 34 => Predefined("etag", None)
    case 35 => Predefined("expect", None)
    case 36 => Predefined("expires", None)
    case 37 => Predefined("from", None)
    case 38 => Predefined("host", None)
    case 39 => Predefined("if-match", None)
    case 40 => Predefined("if-modified-since", None)
    case 41 => Predefined("if-none-match", None)
    case 42 => Predefined("if-range", None)
    case 43 => Predefined("if-unmodified-since", None)
    case 44 => Predefined("last-modified", None)
    case 45 => Predefined("link", None)
    case 46 => Predefined("location", None)
    case 47 => Predefined("max-forwards", None)
    case 48 => Predefined("proxy-authenticate", None)
    case 49 => Predefined("proxy-authorization", None)
    case 50 => Predefined("range", None)
    case 51 => Predefined("referer", None)
    case 52 => Predefined("refresh", None)
    case 53 => Predefined("retry-after", None)
    case 54 => Predefined("server", None)
    case 55 => Predefined("set-cookie", None)
    case 56 => Predefined("strict-transport-security", None)
    case 57 => Predefined("transfer-encoding", None)
    case 58 => Predefined("user-agent", None)
    case 59 => Predefined("vary", None)
    case 60 => Predefined("via", None)
    case _ => Predefined("www-authenticate", None)
  }

  function Ascii(s: string): seq<Octet> {
    seq(|s|, i requires 0 <= i < |s| => s[i] as int % 256)
  }

  function StaticName(index: nat): seq<Octet> {
    Ascii(Static(index).key)
  }

  /** NULL values are None. */
  function StaticValue(index: nat): Option<seq<Octet>> {
    match Static(index).value
    case None => None
    case Some(v) => Some(Ascii(v))
  }

  /** The first static entry from `from` on with this name and, unless `value` is None, this value; zero when
      there is none. */
  function FindStatic(name: seq<Octet>, value: Option<seq<Octet>>, from: nat): (index: nat)
    ensures index == 0 || (from <= index <= STATIC_COUNT && StaticName(index) == name
                           && (value.Some? ==> StaticValue(index) == value))
    decreases STATIC_COUNT + 1 - from
  {
    if from == 0 || from > STATIC_COUNT then 0
    else if StaticName(from) == name && (value.Some? ==> StaticValue(from) == value) then from
    else FindStatic(name, value, from + 1)
  }

  predicate StaticMatch(index: nat, name: seq<Octet>, value: Option<seq<Octet>>) {
    StaticName(index) == name && (value.Some? ==> StaticValue(index) == value)
  }

  /** The entry found is the first that matches, and none is found exactly when none does. */
  lemma {:induction false} FindStaticFirst(name: seq<Octet>, value: Option<seq<Octet>>, from: nat)
    requires 1 <= from
    ensures var r := FindStatic(name, value, from);
            && (r == 0 <==> forall k :: from <= k <= STATIC_COUNT ==> !StaticMatch(k, name, value))
            && (r != 0 ==> from <= r <= STATIC_COUNT && StaticMatch(r, name, value)
                           && forall k :: from <= k < r ==> !StaticMatch(k, name, value))
    decreases STATIC_COUNT + 1 - from
  {
    hide StaticName, StaticValue;
    if from <= STATIC_COUNT && !StaticMatch(from, name, value) {
      FindStaticFirst(name, value, from + 1);
    }
  }

  lemma {:induction false} StaticNamesAreLong(index: nat)
    ensures |StaticName(index)| >= 3
  {
    assert |Static(index).key| >= 3;
  }

  /** Short names are in no static entry. */
  lemma {:induction false} NoStaticEntry(name: seq<Octet>, value: Option<seq<Octet>>, from: nat)
    requires |name| < 3
    ensures FindStatic(name, value, from) == 0
    decreases STATIC_COUNT + 1 - from
  {
    hide StaticName, StaticValue;
    if 0 < from <= STATIC_COUNT {
      StaticNamesAreLong(from);
      NoStaticEntry(name, value, from + 1);
    }
  }
}
