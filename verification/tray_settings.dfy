/**
 The settings of the tray DNS updater: defaults from the application's own
 configuration (with fixed fall-backs for missing keys), overridden field by
 field by the user's saved configuration. The application configuration is a
 map from "Section:Key" to text; the user file is what reading and
 deserialising it produced.
 */
module TraySettings {
  import opened Common

  /** The merged settings the tray works with. */
  datatype DnsSettings = DnsSettings(
    apiUrl: string,
    subDomain: string,
    domain: string,
    updateInterval: Int32,
    enableUpdate: bool)

  /** The user's saved configuration: every setting optional. */
  datatype UserDnsSettings = UserDnsSettings(
    apiUrl: Option<string>,
    subDomain: Option<string>,
    domain: Option<string>,
    updateInterval: Option<Int32>,
    enableUpdate: Option<bool>,
    lastSaved: int,                 // ticks of the save time; bookkeeping only
    lastUsedWebPage: Option<string>)

  /** What reading the user configuration file can produce. */
  datatype UserFile =
    | NoFile                        // File.Exists is false
    | ReadFailed                    // reading the file throws
    | ParseFailed                   // the JSON deserializer throws
    | JsonNull                      // the document is the literal `null`
    | Parsed(settings: UserDnsSettings)

  const DefaultApiUrl: string := "https://tx.qsgl.net:5075/api/updatehosts"
  const DefaultSubDomain: string := "3950"
  const DefaultDomain: string := "qsgl.net"
  const DefaultUpdateInterval: string := "60"
  const DefaultEnableUpdate: string := "true"

  /** The white space `int.Parse` skips around a number. */
  predicate IsNumberWhite(c: char)
  {
    c == ' ' || '\U{0009}' <= c <= '\U{000D}'
  }

  /** Text made only of that white space. */
  predicate NumberWhite(w: string)
  {
    forall k :: 0 <= k < |w| ==> IsNumberWhite(w[k])
  }

  /** `s` without its leading white space; `StripStartRemovesWhite` states its shape. */
  function StripNumberWhiteStart(s: string): string
  {
    if |s| > 0 && IsNumberWhite(s[0]) then StripNumberWhiteStart(s[1..]) else s
  }

  /** `s` without its trailing white space; `StripEndRemovesWhite` states its shape. */
  function StripNumberWhiteEnd(s: string): string
  {
    if |s| > 0 && IsNumberWhite(s[|s| - 1]) then StripNumberWhiteEnd(s[..|s| - 1]) else s
  }

  predicate IsDigit(c: char)
  {
    '0' <= c <= '9'
  }

  predicate AllDigits(s: string)
  {
    forall k :: 0 <= k < |s| ==> IsDigit(s[k])
  }

  /** The value of a string of decimal digits. */
  function DigitsValue(s: string): (n: nat)
    requires AllDigits(s)
  {
    if |s| == 0 then 0 else DigitsValue(s[..|s| - 1]) * 10 + (s[|s| - 1] as int - '0' as int)
  }

  /** The decimal digits of a natural number, most significant first. */
  function Digits(n: nat): (s: string)
    ensures |s| > 0 && AllDigits(s)
  {
    if n < 10 then [(n + '0' as int) as char] else Digits(n / 10) + [(n % 10 + '0' as int) as char]
  }

  lemma {:induction false} DigitsValueOfDigits(n: nat)
    ensures DigitsValue(Digits(n)) == n
  {
    var s := Digits(n);
    if n >= 10 {
      DigitsValueOfDigits(n / 10);
      assert s[..|s| - 1] == Digits(n / 10);
    }
  }

  /** `int.Parse`, as under the invariant culture: optional surrounding white space,
      an optional sign, decimal digits, and a value within the `int` range;
      `None` where .NET throws. */
  function ParseInt32(s: string): (r: Option<Int32>)
    ensures AllDigits(s) && s != "" ==> (r.Some? <==> DigitsValue(s) <= Int32Max)
    ensures AllDigits(s) && s != "" && r.Some? ==> r.value == DigitsValue(s)
  {
    assert AllDigits(s) && s != "" ==> StripNumberWhiteStart(s) == s && StripNumberWhiteEnd(s) == s;
    ParseSigned(StripNumberWhiteEnd(StripNumberWhiteStart(s)))
  }

  /** The number once the white space is gone: a sign, then digits. */
  function ParseSigned(t: string): (r: Option<Int32>)
    ensures AllDigits(t) && t != "" ==> (r.Some? <==> DigitsValue(t) <= Int32Max)
    ensures AllDigits(t) && t != "" && r.Some? ==> r.value == DigitsValue(t)
  {
    var negative := |t| > 0 && t[0] == '-';
    var body := if |t| > 0 && (t[0] == '-' || t[0] == '+') then t[1..] else t;
    if body == "" || !AllDigits(body) then None
    else
      var v: int := if negative then -(DigitsValue(body) as int) else DigitsValue(body);
      if Int32Min <= v <= Int32Max then Some(v) else None
  }

  /** The signs `int.Parse` accepts before the digits. */
  predicate IsSign(sign: string)
  {
    sign == "" || sign == "+" || sign == "-"
  }

  /** The value of a digit string under a sign. */
  function Signed(sign: string, n: nat): int
  {
    if sign == "-" then -(n as int) else n as int
  }

  /** The text of a number: white space, a sign, digits, white space. */
  function NumberText(w1: string, sign: string, d: string, w2: string): string
  {
    w1 + sign + d + w2
  }

  lemma {:induction false} StripStartPast(w: string, x: string)
    requires NumberWhite(w) && (|x| == 0 || !IsNumberWhite(x[0]))
    ensures StripNumberWhiteStart(w + x) == x
  {
    if |w| > 0 {
      assert (w + x)[0] == w[0];
      assert (w + x)[1..] == w[1..] + x;
      StripStartPast(w[1..], x);
    } else {
      assert w + x == x;
    }
  }

  lemma {:induction false} StripEndPast(x: string, w: string)
    requires NumberWhite(w) && (|x| == 0 || !IsNumberWhite(x[|x| - 1]))
    ensures StripNumberWhiteEnd(x + w) == x
  {
    if |w| > 0 {
      var n := |w| - 1;
      assert (x + w)[|x + w| - 1] == w[n];
      assert (x + w)[..|x + w| - 1] == x + w[..n];
      StripEndPast(x, w[..n]);
    } else {
      assert x + w == x;
    }
  }

  /** A sign followed by digits parses to its signed value when it fits. */
  lemma ParseSignedDigits(sign: string, d: string)
    requires IsSign(sign) && d != "" && AllDigits(d)
    ensures var v := Signed(sign, DigitsValue(d));
            ParseSigned(sign + d) == if Int32Min <= v <= Int32Max then Some(v) else None
  {
    var t := sign + d;
    if sign != "" {
      assert t[0] == sign[0];
      assert t[1..] == d;
    } else {
      assert t == d;
    }
  }

  /** Only a sign followed by digits parses. */
  lemma ParseSignedShape(t: string)
    requires ParseSigned(t).Some?
    ensures var hasSign := t[0] == '-' || t[0] == '+';
            var sign, d := if hasSign then t[..1] else "", if hasSign then t[1..] else t;
            && IsSign(sign) && d != "" && AllDigits(d) && t == sign + d
            && ParseSigned(t).value == Signed(sign, DigitsValue(d))
  {
    var hasSign := t[0] == '-' || t[0] == '+';
    if hasSign {
      assert t == t[..1] + t[1..];
      assert t[..1] == "-" || t[..1] == "+";
    }
  }

  /** Every number text parses: to its signed value when that fits in `int`,
      and to nothing (an `OverflowException`) when it does not. */
  lemma ParseInt32Accepts(w1: string, sign: string, d: string, w2: string)
    requires NumberWhite(w1) && NumberWhite(w2) && IsSign(sign) && d != "" && AllDigits(d)
    ensures var v := Signed(sign, DigitsValue(d));
            ParseInt32(NumberText(w1, sign, d, w2)) == if Int32Min <= v <= Int32Max then Some(v) else None
  {
    var t := sign + d;
    assert NumberText(w1, sign, d, w2) == w1 + (t + w2);
    assert (t + w2)[0] == t[0];
    assert t[0] == if sign == "" then d[0] else sign[0];
    StripStartPast(w1, t + w2);
    assert t[|t| - 1] == d[|d| - 1];
    StripEndPast(t, w2);
    ParseSignedDigits(sign, d);
  }

  /** Only number texts parse (any other text is a `FormatException`), and
      to their signed value. */
  lemma ParseInt32OnlyNumbers(s: string)
    ensures ParseInt32(s).Some? ==>
              exists w1, sign, d, w2 ::
                && NumberWhite(w1) && NumberWhite(w2) && IsSign(sign) && d != "" && AllDigits(d)
                && s == NumberText(w1, sign, d, w2)
                && ParseInt32(s).value == Signed(sign, DigitsValue(d))
  {
    if ParseInt32(s).Some? {
      var w1, sign, d, w2 := NumberPieces(s);
    }
  }

  /** The pieces of a text that parses: the white space stripping removes, the
      sign and the digits. */
  lemma NumberPieces(s: string) returns (w1: string, sign: string, d: string, w2: string)
    requires ParseInt32(s).Some?
    ensures NumberWhite(w1) && NumberWhite(w2) && IsSign(sign) && d != "" && AllDigits(d)
    ensures s == NumberText(w1, sign, d, w2)
    ensures ParseInt32(s).value == Signed(sign, DigitsValue(d))
  {
    var u := StripNumberWhiteStart(s);
    var t := StripNumberWhiteEnd(u);
    StrippedPieces(s);
    w1, w2 := s[..|s| - |u|], u[|t|..];
    assert ParseSigned(t) == ParseInt32(s);
    ParseSignedShape(t);
    var hasSign := t[0] == '-' || t[0] == '+';
    sign, d := if hasSign then t[..1] else "", if hasSign then t[1..] else t;
    JoinPieces(s, w1, t, w2, sign, d);
  }

  lemma JoinPieces(s: string, w1: string, t: string, w2: string, sign: string, d: string)
    requires s == w1 + t + w2 && t == sign + d
    ensures s == NumberText(w1, sign, d, w2)
  {
  }

  /** Stripping the front leaves a suffix that does not start with white
      space, and what it removes is white space. */
  lemma {:induction false} StripStartRemovesWhite(s: string)
    ensures var r := StripNumberWhiteStart(s);
            && |r| <= |s| && r == s[|s| - |r|..] && (|r| > 0 ==> !IsNumberWhite(r[0]))
            && NumberWhite(s[..|s| - |r|])
  {
    if |s| > 0 && IsNumberWhite(s[0]) {
      var r := StripNumberWhiteStart(s[1..]);
      StripStartRemovesWhite(s[1..]);
      assert s[1..][|s| - 1 - |r|..] == s[|s| - |r|..];
      var w := s[..|s| - |r|];
      forall k | 0 <= k < |w| ensures IsNumberWhite(w[k]) {
        if k > 0 { assert w[k] == s[1..][..|s| - 1 - |r|][k - 1]; }
      }
    }
  }

  /** Stripping the end leaves a prefix that does not end with white space,
      and what it removes is white space. */
  lemma {:induction false} StripEndRemovesWhite(s: string)
    ensures var r := StripNumberWhiteEnd(s);
            && |r| <= |s| && r == s[..|r|] && (|r| > 0 ==> !IsNumberWhite(r[|r| - 1]))
            && NumberWhite(s[|r|..])
  {
    if |s| > 0 && IsNumberWhite(s[|s| - 1]) {
      var n := |s| - 1;
      var r := StripNumberWhiteEnd(s[..n]);
      StripEndRemovesWhite(s[..n]);
      assert s[..n][..|r|] == s[..|r|];
      var w := s[|r|..];
      forall k | 0 <= k < |w| ensures IsNumberWhite(w[k]) {
        if k < |w| - 1 { assert w[k] == s[..n][|r|..][k]; }
      }
    }
  }

  /** Stripping splits a text into leading white space, the stripped text and
      trailing white space. */
  lemma StrippedPieces(s: string)
    ensures var u := StripNumberWhiteStart(s);
            var t := StripNumberWhiteEnd(u);
            && |u| <= |s| && |t| <= |u|
            && NumberWhite(s[..|s| - |u|]) && NumberWhite(u[|t|..])
            && s == s[..|s| - |u|] + t + u[|t|..]
  {
    var u := StripNumberWhiteStart(s);
    var t := StripNumberWhiteEnd(u);
    StripStartRemovesWhite(s);
    StripEndRemovesWhite(u);
    SplitBeforeSuffix(s, u);
    SplitAfterPrefix(u, t);
  }

  lemma SplitBeforeSuffix(s: string, u: string)
    requires |u| <= |s| && u == s[|s| - |u|..]
    ensures s == s[..|s| - |u|] + u
  {
  }

  lemma SplitAfterPrefix(u: string, t: string)
    requires |t| <= |u| && t == u[..|t|]
    ensures u == t + u[|t|..]
  {
  }

  /** A number written in decimal parses back to itself. */
  lemma ParseFormatted(n: Int32)
    ensures n >= 0 ==> ParseInt32(Digits(n)) == Some(n)
    ensures n < 0 ==> ParseInt32("-" + Digits(-(n as int))) == Some(n)
  {
    if n >= 0 {
      DigitsValueOfDigits(n);
      ParseBareDigits(Digits(n), n);
    } else {
      DigitsValueOfDigits(-(n as int));
      ParseNegativeDigits(Digits(-(n as int)), n);
    }
  }

  lemma ParseBareDigits(d: string, n: Int32)
    requires d != "" && AllDigits(d) && DigitsValue(d) == n
    ensures ParseInt32(d) == Some(n)
  {
  }

  lemma ParseNegativeDigits(d: string, n: Int32)
    requires d != "" && AllDigits(d) && DigitsValue(d) == -(n as int)
    ensures ParseInt32("-" + d) == Some(n)
  {
    var t := "-" + d;
    assert t[0] == '-' && t[|t| - 1] == d[|d| - 1];
    ParseInt32Unstripped(t);
    ParseSignedDigits("-", d);
  }

  /** A text with no white space at either end is parsed as it stands. */
  lemma ParseInt32Unstripped(t: string)
    requires t != "" && !IsNumberWhite(t[0]) && !IsNumberWhite(t[|t| - 1])
    ensures ParseInt32(t) == ParseSigned(t)
  {
    assert StripNumberWhiteStart(t) == t;
    assert StripNumberWhiteEnd(t) == t;
  }

  /** `bool.Parse`: "true" or "false" in any case, surrounded by any white
      space; `None` where .NET throws. */
  function ParseBool(s: string): (r: Option<bool>)
    ensures r == Some(true) <==> EqualsIgnoreCase(Trim(s), "True")
    ensures r == Some(false) <==> EqualsIgnoreCase(Trim(s), "False")
  {
    var t := Trim(s);
    if EqualsIgnoreCase(t, "True") then Some(true)
    else if EqualsIgnoreCase(t, "False") then Some(false)
    else None
  }

  /** `configuration[key] ?? fallback`. */
  function Setting(config: map<string, string>, key: string, fallback: string): (v: string)
    ensures key in config ==> v == config[key]
    ensures key !in config ==> v == fallback
  {
    if key in config then config[key] else fallback
  }

  /** The settings of the application configuration alone; `None` where a
      number or a flag does not parse and .NET throws. */
  function BaseSettings(config: map<string, string>): (r: Option<DnsSettings>)
    ensures r.Some? <==>
              ParseInt32(Setting(config, "DnsSettings:UpdateInterval", DefaultUpdateInterval)).Some? &&
              ParseBool(Setting(config, "DnsSettings:EnableUpdate", DefaultEnableUpdate)).Some?
    ensures r.Some? ==>
              && r.value.apiUrl == Setting(config, "DnsSettings:ApiUrl", DefaultApiUrl)
              && r.value.subDomain == Setting(config, "DnsSettings:SubDomain", DefaultSubDomain)
              && r.value.domain == Setting(config, "DnsSettings:Domain", DefaultDomain)
              && Some(r.value.updateInterval) == ParseInt32(Setting(config, "DnsSettings:UpdateInterval", DefaultUpdateInterval))
              && Some(r.value.enableUpdate) == ParseBool(Setting(config, "DnsSettings:EnableUpdate", DefaultEnableUpdate))
  {
    var interval := ParseInt32(Setting(config, "DnsSettings:UpdateInterval", DefaultUpdateInterval));
    var enable := ParseBool(Setting(config, "DnsSettings:EnableUpdate", DefaultEnableUpdate));
    if interval.None? || enable.None? then None
    else Some(DnsSettings(
      Setting(config, "DnsSettings:ApiUrl", DefaultApiUrl),
      Setting(config, "DnsSettings:SubDomain", DefaultSubDomain),
      Setting(config, "DnsSettings:Domain", DefaultDomain),
      interval.value,
      enable.value))
  }

  /** An empty application configuration gives the built-in defaults. */
  lemma EmptyBaseGivesDefaults()
    ensures BaseSettings(map[]) == Some(DnsSettings(DefaultApiUrl, "3950", "qsgl.net", 60, true))
  {
    assert Digits(60) == "60";
    ParseFormatted(60);
    ParseTrue();
  }

  lemma ParseTrue()
    ensures ParseBool("true") == Some(true)
  {
    var t := "true";
    assert t[0] == 't' && t[|t| - 1] == 'e';
    assert !IsWhiteSpace('t') && !IsWhiteSpace('e');
    assert TrimStart(t) == t;
    assert TrimEnd(t) == t;
    assert Upper(t) == "TRUE" == Upper("True");
  }

  /** `LoadUserConfiguration`: the saved settings, or nothing when the file is
      absent, unreadable, malformed or `null`. */
  function LoadUserConfiguration(file: UserFile): (r: Option<UserDnsSettings>)
    ensures r.Some? <==> file.Parsed?
    ensures r.Some? ==> r.value == file.settings
  {
    match file
    case Parsed(u) => Some(u)
    case _ => None
  }

  /** The user's fields over the base settings, each only where present. */
  function Override(base: DnsSettings, user: UserDnsSettings): (r: DnsSettings)
    ensures r.apiUrl == user.apiUrl.OrElse(base.apiUrl)
    ensures r.subDomain == user.subDomain.OrElse(base.subDomain)
    ensures r.domain == user.domain.OrElse(base.domain)
    ensures r.updateInterval == user.updateInterval.OrElse(base.updateInterval)
    ensures r.enableUpdate == user.enableUpdate.OrElse(base.enableUpdate)
  {
    base.(subDomain := user.subDomain.OrElse(base.subDomain),
          domain := user.domain.OrElse(base.domain),
          updateInterval := user.updateInterval.OrElse(base.updateInterval),
          enableUpdate := user.enableUpdate.OrElse(base.enableUpdate),
          apiUrl := user.apiUrl.OrElse(base.apiUrl))
  }

  /** `LoadConfiguration`: `None` where .NET throws (the application
      configuration file is missing, or a number or flag in it does not parse). */
  function LoadConfiguration(appSettings: Option<map<string, string>>, userFile: UserFile): (r: Option<DnsSettings>)
    // the user file never rescues a broken application configuration
    ensures r.Some? <==> appSettings.Some? && BaseSettings(appSettings.value).Some?
    ensures r.Some? && !userFile.Parsed? ==> r == BaseSettings(appSettings.value)
    ensures r.Some? && userFile.Parsed? ==>
              var b := BaseSettings(appSettings.value).value;
              var u := userFile.settings;
              && r.value.apiUrl == (if u.apiUrl.Some? then u.apiUrl.value else b.apiUrl)
              && r.value.subDomain == (if u.subDomain.Some? then u.subDomain.value else b.subDomain)
              && r.value.domain == (if u.domain.Some? then u.domain.value else b.domain)
              && r.value.updateInterval == (if u.updateInterval.Some? then u.updateInterval.value else b.updateInterval)
              && r.value.enableUpdate == (if u.enableUpdate.Some? then u.enableUpdate.value else b.enableUpdate)
  {
    if appSettings.None? then None
    else
      match BaseSettings(appSettings.value)
      case None => None
      case Some(base) =>
        match LoadUserConfiguration(userFile)
        case None => Some(base)
        case Some(user) => Some(Override(base, user))
  }

  /** The save time and the last web page never affect the merged settings. */
  lemma BookkeepingIgnored(appSettings: Option<map<string, string>>, u: UserDnsSettings,
                           lastSaved: int, lastUsedWebPage: Option<string>)
    ensures LoadConfiguration(appSettings, Parsed(u)) ==
            LoadConfiguration(appSettings, Parsed(u.(lastSaved := lastSaved, lastUsedWebPage := lastUsedWebPage)))
  {
  }

  /** A user file with every setting present decides the result alone, once
      the application configuration loads at all. */
  lemma FullUserSettingsWin(appSettings: map<string, string>, u: UserDnsSettings)
    requires u.apiUrl.Some? && u.subDomain.Some? && u.domain.Some? && u.updateInterval.Some? && u.enableUpdate.Some?
    ensures LoadConfiguration(Some(appSettings), Parsed(u)) ==
            if BaseSettings(appSettings).None? then None
            else Some(DnsSettings(u.apiUrl.value, u.subDomain.value, u.domain.value, u.updateInterval.value, u.enableUpdate.value))
  {
  }

  /** A user file with no setting present changes nothing. */
  lemma EmptyUserSettingsChangeNothing(appSettings: Option<map<string, string>>, u: UserDnsSettings)
    requires u.apiUrl.None? && u.subDomain.None? && u.domain.None? && u.updateInterval.None? && u.enableUpdate.None?
    ensures LoadConfiguration(appSettings, Parsed(u)) == LoadConfiguration(appSettings, NoFile)
  {
  }
}
