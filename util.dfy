/** The pure helpers of Cyndaron's static `Util` class. What the PHP code reads
    from its surroundings is passed in explicitly: the request's host header,
    the public directory PUB_DIR, the current year and month, and the values
    that random_int and random_bytes returned. */
module Util {
  import opened Builtins

  // ---------------------------------------------------------------------
  // Constants of the class

  /** Util::PASSWORD_CHARACTERS: 12 lower-case letters, 13 upper-case letters
      and 4 digits, leaving out glyphs that are easily confused. */
  const PASSWORD_CHARACTERS: seq<char> :=
    ['a', 'c', 'd', 'e', 'f', 'h', 'j', 'm', 'n', 'q', 'r', 't',
     'A', 'C', 'D', 'E', 'F', 'H', 'J', 'L', 'M', 'N', 'Q', 'R', 'T',
     '3', '4', '7', '8']

  /** Util::UPLOAD_DIR, for a given PUB_DIR. Its parent directory, as dirname
      computes it, is PUB_DIR without its trailing slashes, or "/" when nothing
      else is left. */
  function UploadDir(pubDir: string): (uploadDir: string)
    ensures Dirname(uploadDir) ==
      (if StripTrailingSlashes(pubDir) == [] then "/" else StripTrailingSlashes(pubDir))
  {
    assert pubDir + "/uploads" == pubDir + "/" + "uploads";
    DirnameOfChild(pubDir, "uploads");
    pubDir + "/uploads"
  }

  /** The search strings getDomain removes, in the order it removes them. */
  const DOMAIN_NOISE: seq<string> := ["www.", "http://", "https://", "/"]

  const NOREPLY_PREFIX: string := "noreply@"

  const SPREADSHEET_CONTENT_TYPE: string :=
    "application/vnd.openxmlformats-officedocument.spreadsheetml.sheet; charset=UTF-8"

  const DISPOSITION_PREFIX: string := "attachment;filename=\""

  // ---------------------------------------------------------------------
  // generatePassword

  function Max0(n: int): nat { if n < 0 then 0 else n }

  predicate ValidDraws(draws: seq<int>)
  {
    forall i :: 0 <= i < |draws| ==> 0 <= draws[i] < |PASSWORD_CHARACTERS|
  }

  /** The password that the given random_int results select. */
  function PasswordFor(draws: seq<int>): string
    requires ValidDraws(draws)
  {
    seq(|draws|, i requires 0 <= i < |draws| => PASSWORD_CHARACTERS[draws[i]])
  }

  /** generatePassword($length): one character per iteration, appended to the
      result; `draws[c]` is what random_int(0, 28) returned in iteration c. */
  method GeneratePassword(length: int, draws: seq<int>) returns (gencode: string)
    requires |draws| == Max0(length)
    requires ValidDraws(draws)
    ensures gencode == PasswordFor(draws)
    ensures |gencode| == Max0(length)
    ensures forall i :: 0 <= i < |gencode| ==> gencode[i] in PASSWORD_CHARACTERS
  {
    gencode := "";
    var c := 0;
    while c < length
      invariant 0 <= c <= Max0(length)
      invariant |gencode| == c
      invariant forall i :: 0 <= i < c ==> gencode[i] == PASSWORD_CHARACTERS[draws[i]]
    {
      gencode := gencode + [PASSWORD_CHARACTERS[draws[c]]];
      c := c + 1;
    }
  }

  /** generatePassword() without an argument: the default length is 10. */
  method GenerateDefaultPassword(draws: seq<int>) returns (gencode: string)
    requires |draws| == 10
    requires ValidDraws(draws)
    ensures gencode == PasswordFor(draws)
    ensures |gencode| == 10
  {
    gencode := GeneratePassword(10, draws);
  }

  /** Where `c` stands in `s`. */
  function IndexOf(s: seq<char>, c: char): (k: nat)
    requires c in s
    ensures k < |s| && s[k] == c
  {
    if s[0] == c then 0 else 1 + IndexOf(s[1..], c)
  }

  /** Every string over the alphabet is the password of some sequence of
      draws: no possible password is ruled out. */
  lemma PasswordReachable(password: string)
    requires forall i :: 0 <= i < |password| ==> password[i] in PASSWORD_CHARACTERS
    ensures exists draws :: ValidDraws(draws) && |draws| == |password| && PasswordFor(draws) == password
  {
    var draws := seq(|password|, i requires 0 <= i < |password| => IndexOf(PASSWORD_CHARACTERS, password[i]));
    assert ValidDraws(draws);
    assert PasswordFor(draws) == password;
  }

  /** The alphabet has 29 distinct characters, so distinct draws give distinct
      characters. */
  lemma PasswordAlphabetDistinct()
    ensures |PASSWORD_CHARACTERS| == 29
    ensures forall i, j :: 0 <= i < j < |PASSWORD_CHARACTERS| ==>
      PASSWORD_CHARACTERS[i] != PASSWORD_CHARACTERS[j]
  {
  }

  /** None of the easily confused glyphs is in the alphabet. */
  lemma PasswordAlphabetUnambiguous()
    ensures forall i :: 0 <= i < |PASSWORD_CHARACTERS| ==> PASSWORD_CHARACTERS[i] !in "0Oo1Iil2Z5Sb6g9"
  {
  }

  // ---------------------------------------------------------------------
  // generateToken

  /** generateToken($length) = bin2hex(random_bytes($length)); `bytes` is what
      random_bytes returned. random_bytes rejects a length below 1 with an error. */
  function GenerateToken(length: int, bytes: seq<byte>): (r: Result<string>)
    requires length >= 1 ==> |bytes| == length
    ensures r.Ok? <==> length >= 1
    ensures r.Ok? ==> |r.value| == 2 * length
    ensures r.Ok? ==> IsLowerHex(r.value) && Hex2Bin(r.value) == bytes
  {
    if length < 1 then Err("random_bytes(): Argument #1 ($length) must be greater than 0")
    else
      Bin2HexRoundTrip(bytes);
      Ok(Bin2Hex(bytes))
  }

  /** Two different byte strings never give the same token. */
  lemma TokenInjective(length: int, a: seq<byte>, b: seq<byte>)
    requires length >= 1 && |a| == length && |b| == length
    requires GenerateToken(length, a) == GenerateToken(length, b)
    ensures a == b
  {
    Bin2HexRoundTrip(a);
    Bin2HexRoundTrip(b);
  }

  // ---------------------------------------------------------------------
  // getDomain, getNoreplyAddress

  /** getDomain(), with $_SERVER['HTTP_HOST'] passed in as `host`. */
  function GetDomain(host: string): (domain: string)
    ensures |domain| <= |host|
    ensures '/' !in domain
  {
    RemoveEachLast(host, DOMAIN_NOISE);
    RemoveAllCharGone(RemoveEach(host, DOMAIN_NOISE[..3]), '/');
    RemoveEach(host, DOMAIN_NOISE)
  }

  /** getDomain only removes characters, it never adds one. */
  lemma GetDomainIntroducesNothing(host: string)
    ensures multiset(GetDomain(host)) <= multiset(host)
  {
    var s1 := RemoveAll(host, "www.");
    var s2 := RemoveAll(s1, "http://");
    var s3 := RemoveAll(s2, "https://");
    RemoveAllIntroducesNothing(host, "www.");
    RemoveAllIntroducesNothing(s1, "http://");
    RemoveAllIntroducesNothing(s2, "https://");
    RemoveAllIntroducesNothing(s3, "/");
    GetDomainSteps(host);
  }

  /** A host with no slash and no "www." is already a domain and comes back unchanged. */
  lemma GetDomainOfPlainHost(host: string)
    requires '/' !in host && !Occurs("www.", host)
    ensures GetDomain(host) == host
  {
    forall k | 0 <= k < |DOMAIN_NOISE| ensures !Occurs(DOMAIN_NOISE[k], host) {
      if k > 0 {
        var pat := DOMAIN_NOISE[k];
        assert pat[|pat| - 1] == '/';
        forall i | 0 <= i && i + |pat| <= |host| ensures !OccursAt(pat, host, i) {
          assert host[i..i + |pat|][|pat| - 1] == host[i + |pat| - 1];
          assert host[i + |pat| - 1] in host;
        }
      }
    }
    RemoveEachAbsent(host, DOMAIN_NOISE);
  }

  /** getDomain removes the four search strings one after the other. */
  lemma GetDomainSteps(host: string)
    ensures GetDomain(host) ==
      RemoveAll(RemoveAll(RemoveAll(RemoveAll(host, "www."), "http://"), "https://"), "/")
  {
    assert DOMAIN_NOISE[0] == "www." && DOMAIN_NOISE[1..][0] == "http://";
    assert DOMAIN_NOISE[1..][1..][0] == "https://" && DOMAIN_NOISE[1..][1..][1..] == ["/"];
  }

  /** For instance, the leading "www." is dropped from "www.example.com". */
  lemma GetDomainExample()
    ensures GetDomain("www.example.com") == "example.com"
  {
    var h := "www.example.com";
    var d := "example.com";
    assert 'w' !in d && '/' !in d;
    assert !Occurs("www.", d) by {
      forall i | 0 <= i && i + 4 <= |d| ensures !OccursAt("www.", d, i) {
        assert d[i..i + 4][0] == d[i];
        assert d[i] in d;
      }
    }
    assert h[..4] == "www." && h[4..] == d;
    RemoveAllAbsent(d, "www.");
    assert RemoveAll(h, "www.") == d;
    GetDomainOfPlainHost(d);
    GetDomainSteps(h);
    GetDomainSteps(d);
  }

  /** No occurrence of "www." or "http://" in "https://example.com/". */
  lemma SchemeHostHasNoWwwOrHttp()
    ensures !Occurs("www.", "https://example.com/")
    ensures !Occurs("http://", "https://example.com/")
  {
    var h := "https://example.com/";
    assert 'w' !in h;
    forall i | 0 <= i && i + 4 <= |h| ensures !OccursAt("www.", h, i) {
      assert h[i..i + 4][0] == h[i];
      assert h[i] in h;
    }
    forall i | 0 <= i && i + 7 <= |h| ensures !OccursAt("http://", h, i) {
      assert h[i..i + 7][4] == h[i + 4];
      assert h[i..i + 7][0] == h[i];
      if i == 1 { assert h[1] != 'h'; } else { assert h[i + 4] != ':'; }
    }
  }

  /** Removing "https://" from "https://example.com/" leaves "example.com/". */
  lemma SchemeHostDropsScheme()
    ensures RemoveAll("https://example.com/", "https://") == "example.com/"
  {
    var h := "https://example.com/";
    var rest := "example.com/";
    assert h[..8] == "https://" && h[8..] == rest;
    assert 'h' !in rest;
    assert !Occurs("https://", rest) by {
      forall i | 0 <= i && i + 8 <= |rest| ensures !OccursAt("https://", rest, i) {
        assert rest[i..i + 8][0] == rest[i];
        assert rest[i] in rest;
      }
    }
    RemoveAllAbsent(rest, "https://");
  }

  /** Removing "/" from "example.com/" leaves "example.com". */
  lemma SchemeHostDropsSlash()
    ensures RemoveAll("example.com/", "/") == "example.com"
  {
    var d := "example.com";
    var rest := "example.com/";
    assert '/' !in d && rest == d + "/";
    forall j | 0 <= j < 11 ensures !OccursAt("/", rest, j) {
      assert rest[j..j + 1][0] == rest[j] == d[j];
      assert d[j] in d;
    }
    assert rest[11..12] == "/";
    RemoveAllFirstMatch(rest, "/", 11);
    assert rest[..11] == d && rest[12..] == "";
  }

  /** For instance, the scheme and the trailing slash are dropped from
      "https://example.com/". "http://" does not occur in it, so the second
      search leaves it alone, and the third removes "https://". */
  lemma GetDomainExampleWithScheme()
    ensures GetDomain("https://example.com/") == "example.com"
  {
    var h := "https://example.com/";
    SchemeHostHasNoWwwOrHttp();
    RemoveAllAbsent(h, "www.");
    RemoveAllAbsent(h, "http://");
    SchemeHostDropsScheme();
    SchemeHostDropsSlash();
    GetDomainSteps(h);
  }

  /** The searches are applied once each and in order, so a "www." can survive
      when removing one occurrence joins the text around it into another. */
  lemma GetDomainKeepsRejoinedPrefix()
    ensures GetDomain("wwwwww..") == "www."
    ensures GetDomain(GetDomain("wwwwww..")) != GetDomain("wwwwww..")
  {
    var h := "wwwwww..";
    var www := "www.";
    assert RemoveAll(h[3..], www) == "." by {
      assert h[3..][..4] == www;
      assert h[3..][4..] == ".";
    }
    assert RemoveAll(h[2..], www) == "w" + "." by {
      assert h[2..][..4][3] == 'w';
      assert h[2..][1..] == h[3..];
    }
    assert RemoveAll(h[1..], www) == "w" + "w." by {
      assert h[1..][..4][3] == 'w';
      assert h[1..][1..] == h[2..];
    }
    assert RemoveAll(h, www) == "w" + "ww." by {
      assert h[..4][3] == 'w';
    }
    assert RemoveAll(www, "http://") == www;
    assert RemoveAll(www, "https://") == www;
    assert RemoveAll(www[3..], "/") == www[3..];
    assert RemoveAll(www[2..], "/") == www[2..] by {
      assert www[2..][1..] == www[3..];
    }
    assert RemoveAll(www[1..], "/") == www[1..] by {
      assert www[1..][1..] == www[2..];
    }
    assert RemoveAll(www, "/") == www;
    GetDomainSteps(h);
    assert GetDomain(h) == www;
    assert RemoveAll(www, www) == "";
    GetDomainSteps(www);
  }

  /** getNoreplyAddress(), with the host header passed in as `host`. */
  function GetNoreplyAddress(host: string): (address: string)
    ensures NOREPLY_PREFIX <= address
    ensures address[|NOREPLY_PREFIX|..] == GetDomain(host)
    ensures |address| <= |NOREPLY_PREFIX| + |host|
    ensures '/' !in address
  {
    NOREPLY_PREFIX + GetDomain(host)
  }

  // ---------------------------------------------------------------------
  // slug

  /** slug($string): strtolower, then every space becomes '-'. It works
      character by character and keeps the length. */
  function Slug(s: string): (r: string)
    ensures |r| == |s|
    ensures forall i :: 0 <= i < |s| ==> r[i] == SlugChar(s[i])
  {
    ToLowerPointwise(s);
    ReplaceCharPointwise(ToLower(s), ' ', '-');
    ReplaceChar(ToLower(s), ' ', '-')
  }

  /** What slug does to one character. */
  function SlugChar(c: char): char
  {
    if c == ' ' then '-' else LowerChar(c)
  }

  /** A slug has no space and no upper-case letter; upper-case letters are
      lower-cased, spaces become '-', and every other character (including
      '-' itself) passes through unchanged. */
  lemma SlugCharacters(s: string)
    ensures |Slug(s)| == |s|
    ensures ' ' !in Slug(s)
    ensures forall i :: 0 <= i < |s| ==> !IsUpper(Slug(s)[i])
    ensures forall i :: 0 <= i < |s| && s[i] == ' ' ==> Slug(s)[i] == '-'
    ensures forall i :: 0 <= i < |s| && IsUpper(s[i]) ==> Slug(s)[i] == (s[i] as int + 32) as char
    ensures forall i :: 0 <= i < |s| && s[i] != ' ' && !IsUpper(s[i]) ==> Slug(s)[i] == s[i]
  {
    forall i | 0 <= i < |s| ensures Slug(s)[i] != ' ' {
    }
  }

  /** Slugging a slug changes nothing. */
  lemma SlugIdempotent(s: string)
    ensures Slug(Slug(s)) == Slug(s)
  {
    var r := Slug(s);
    forall i | 0 <= i < |s| ensures Slug(r)[i] == r[i] {
      assert Slug(r)[i] == SlugChar(r[i]);
    }
  }

  /** For instance, two spaces give two hyphens, and the empty string stays empty. */
  lemma SlugExamples()
    ensures Slug("A  B") == "a--b"
    ensures Slug("") == ""
  {
    var s := "A  B";
    forall i | 0 <= i < 4 ensures Slug(s)[i] == "a--b"[i] {
      if i == 0 {} else if i == 1 {} else if i == 2 {} else {}
    }
  }

  // ---------------------------------------------------------------------
  // getStartOfNextQuarter

  /** A calendar day; only the year/month/day triple of the PHP date object. */
  datatype Date = Date(year: int, month: int, day: int)

  /** floor(($month - 1) / 3) + 1 (Dafny's division with a positive divisor
      rounds down, as floor does). */
  function Quarter(month: int): (q: int)
    ensures 1 <= month <= 12 ==> 1 <= q <= 4 && 3 * q - 2 <= month <= 3 * q
  {
    (month - 1) / 3 + 1
  }

  /** getStartOfNextQuarter(), with date('Y') and date('m') passed in. */
  function StartOfNextQuarter(year: int, month: int): (next: Date)
    ensures next.day == 1
  {
    var nextYear := year + 1;
    var currentQuarter := Quarter(month);
    if currentQuarter == 1 then Date(year, 4, 1)
    else if currentQuarter == 2 then Date(year, 7, 1)
    else if currentQuarter == 3 then Date(year, 10, 1)
    else Date(nextYear, 1, 1)
  }

  /** Months counted from year 0, month 1: the order of calendar months. */
  function MonthNumber(year: int, month: int): int
  {
    12 * year + (month - 1)
  }

  predicate Before(a: Date, b: Date)
  {
    a.year < b.year
    || (a.year == b.year && a.month < b.month)
    || (a.year == b.year && a.month == b.month && a.day < b.day)
  }

  /** The first day of January, April, July or October. */
  predicate IsQuarterStart(d: Date)
  {
    d.day == 1 && 1 <= d.month <= 12 && (d.month - 1) % 3 == 0
  }

  /** The date for each quarter: day 1 of month 3q+1 in the same year for
      q = 1..3, and January 1 of the next year for q = 4. */
  lemma StartOfNextQuarterByQuarter(year: int, month: int)
    requires 1 <= month <= 12
    ensures Quarter(month) < 4 ==>
      StartOfNextQuarter(year, month) == Date(year, 3 * Quarter(month) + 1, 1)
    ensures Quarter(month) == 4 ==> StartOfNextQuarter(year, month) == Date(year + 1, 1, 1)
  {
  }

  /** The result is a quarter start, later than every day of the current
      month, at most three months past the current month's first day, and no
      later than any other quarter start after the current month: it is the
      first quarter start after the current month. */
  lemma StartOfNextQuarterIsNext(year: int, month: int)
    requires 1 <= month <= 12
    ensures IsQuarterStart(StartOfNextQuarter(year, month))
    ensures forall day :: 1 <= day <= 31 ==> Before(Date(year, month, day), StartOfNextQuarter(year, month))
    ensures 1 <= MonthNumber(StartOfNextQuarter(year, month).year, StartOfNextQuarter(year, month).month)
                 - MonthNumber(year, month) <= 3
    ensures forall q :: IsQuarterStart(q) && MonthNumber(q.year, q.month) > MonthNumber(year, month) ==>
      MonthNumber(StartOfNextQuarter(year, month).year, StartOfNextQuarter(year, month).month)
        <= MonthNumber(q.year, q.month)
  {
    StartOfNextQuarterByQuarter(year, month);
    var next := StartOfNextQuarter(year, month);
    forall q | IsQuarterStart(q) && MonthNumber(q.year, q.month) > MonthNumber(year, month)
      ensures MonthNumber(next.year, next.month) <= MonthNumber(q.year, q.month)
    {
      assert q.month in {1, 4, 7, 10};
    }
  }

  /** For instance, February 2024 gives 2024-04-01, and November 2024 gives 2025-01-01. */
  lemma StartOfNextQuarterExamples()
    ensures StartOfNextQuarter(2024, 2) == Date(2024, 4, 1)
    ensures StartOfNextQuarter(2024, 11) == Date(2025, 1, 1)
  {
  }

  // ---------------------------------------------------------------------
  // filenameToUrl

  /** filenameToUrl($filename), with PUB_DIR passed in as `pubDir`: a file under
      the upload directory loses the upload directory's parent from its front. */
  function FilenameToUrl(filename: string, pubDir: string): (url: string)
    ensures !(UploadDir(pubDir) <= filename) ==> url == filename
    ensures UploadDir(pubDir) <= filename ==>
      var parentDir := if StripTrailingSlashes(pubDir) == [] then "/" else StripTrailingSlashes(pubDir);
      |parentDir| <= |filename| && url == filename[|parentDir|..]
  {
    var uploadDir := UploadDir(pubDir);
    if uploadDir <= filename then
      var parentDir := Dirname(uploadDir);
      filename[|parentDir|..]
    else filename
  }

  /** A file outside the upload directory is returned as it is; one inside
      loses a prefix only, and when PUB_DIR is a non-empty path with no
      trailing slash what is left is the path from "/uploads" on. */
  lemma FilenameToUrlSpec(filename: string, pubDir: string)
    ensures !(UploadDir(pubDir) <= filename) ==> FilenameToUrl(filename, pubDir) == filename
    ensures UploadDir(pubDir) <= filename ==>
      var url := FilenameToUrl(filename, pubDir);
      |url| <= |filename| && url == filename[|filename| - |url|..]
    ensures UploadDir(pubDir) <= filename && pubDir != [] && pubDir[|pubDir| - 1] != '/' ==>
      FilenameToUrl(filename, pubDir) == filename[|pubDir|..] &&
      "/uploads" <= FilenameToUrl(filename, pubDir)
  {
    if UploadDir(pubDir) <= filename {
      var parentDir := Dirname(UploadDir(pubDir));
      var url := filename[|parentDir|..];
      assert FilenameToUrl(filename, pubDir) == url;
      assert |filename| - |url| == |parentDir|;
      if pubDir != [] && pubDir[|pubDir| - 1] != '/' {
        assert StripTrailingSlashes(pubDir) == pubDir;
        assert parentDir == pubDir;
        assert url[..8] == UploadDir(pubDir)[|pubDir|..];
      }
    }
  }

  /** For instance, with PUB_DIR "/var/app", a file under /var/app/uploads keeps
      the path from "/uploads" on, and a file elsewhere is unchanged. */
  lemma FilenameToUrlExamples()
    ensures FilenameToUrl("/var/app/uploads/img/a.png", "/var/app") == "/uploads/img/a.png"
    ensures FilenameToUrl("/tmp/other.png", "/var/app") == "/tmp/other.png"
  {
    var f := "/var/app/uploads/img/a.png";
    assert UploadDir("/var/app") == f[..16];
    FilenameToUrlSpec(f, "/var/app");
    assert f[8..] == "/uploads/img/a.png";
    var g := "/tmp/other.png";
    assert g[1] != UploadDir("/var/app")[1];
    FilenameToUrlSpec(g, "/var/app");
  }

  /** With PUB_DIR empty (the site served from the file-system root) the parent
      of "/uploads" is "/" and the URL loses its leading slash. */
  lemma FilenameToUrlAtRoot(filename: string)
    requires "/uploads" <= filename
    ensures FilenameToUrl(filename, "") == filename[1..]
    ensures "uploads" <= FilenameToUrl(filename, "")
  {
    assert UploadDir("") == "/uploads";
    assert filename[1..][..7] == "/uploads"[1..];
  }

  // ---------------------------------------------------------------------
  // spreadsheetHeadersForFilename

  /** spreadsheetHeadersForFilename($filename): '"' becomes "'" in the name,
      which is then quoted in the content-disposition header. */
  function SpreadsheetHeadersForFilename(filename: string): (headers: map<string, string>)
    ensures headers.Keys == {"content-type", "content-disposition", "cache-control"}
    ensures headers["content-type"] == SPREADSHEET_CONTENT_TYPE
    ensures headers["cache-control"] == "max-age=0"
  {
    var safeName := ReplaceChar(filename, '"', '\'');
    map["content-type" := SPREADSHEET_CONTENT_TYPE,
        "content-disposition" := DISPOSITION_PREFIX + safeName + "\"",
        "cache-control" := "max-age=0"]
  }

  /** The content-disposition value is `attachment;filename="` + name + `"`,
      where name is the file name with every '"' turned into "'". The only
      double quotes in the value are the two that delimit the name. */
  lemma SpreadsheetDispositionQuoted(filename: string)
    ensures var value := SpreadsheetHeadersForFilename(filename)["content-disposition"];
      var name := value[|DISPOSITION_PREFIX|..|value| - 1];
      |value| == |DISPOSITION_PREFIX| + |filename| + 1 &&
      DISPOSITION_PREFIX <= value && value[|value| - 1] == '"' &&
      |name| == |filename| && '"' !in name &&
      (forall i :: 0 <= i < |filename| ==>
        name[i] == (if filename[i] == '"' then '\'' else filename[i])) &&
      (forall i :: 0 <= i < |value| && value[i] == '"' ==>
        i == |DISPOSITION_PREFIX| - 1 || i == |value| - 1)
  {
    var safeName := ReplaceChar(filename, '"', '\'');
    var value := DISPOSITION_PREFIX + safeName + "\"";
    assert SpreadsheetHeadersForFilename(filename)["content-disposition"] == value;
    ReplaceCharPointwise(filename, '"', '\'');
    ReplaceCharRemoves(filename, '"', '\'');
    assert value[|DISPOSITION_PREFIX|..|value| - 1] == safeName;
    assert forall i :: |DISPOSITION_PREFIX| <= i < |value| - 1 ==>
      value[i] == safeName[i - |DISPOSITION_PREFIX|];
    assert forall j :: 0 <= j < |safeName| ==> safeName[j] != '"';
  }
}
