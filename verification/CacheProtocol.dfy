// The cache socket protocol: the clients' requests (crates/ixmati-cache: cache_client_sync.rs,
// cache_client.rs) and the server that reads them (cache_server.rs). A stream is a sequence of
// characters; the bytes of a value count as characters of their own.

module CacheText {
  import opened Options

  /** Unicode white space, which `trim` removes. */
  predicate Space(c: char) {
    var n := c as int;
    || 9 <= n <= 13 || n == 32 || n == 0x85 || n == 0xA0 || n == 0x1680 || 0x2000 <= n <= 0x200A
    || n == 0x2028 || n == 0x2029 || n == 0x202F || n == 0x205F || n == 0x3000
  }

  function TrimStart(s: string): string {
    if s != [] && Space(s[0]) then TrimStart(s[1..]) else s
  }

  function TrimEnd(s: string): string {
    if s != [] && Space(s[|s|-1]) then TrimEnd(s[..|s|-1]) else s
  }

  function Trim(s: string): string { TrimEnd(TrimStart(s)) }

  /** Only what stands at the ends is trimmed. */
  lemma TrimLine(s: string)
    requires s != [] && !Space(s[0]) && !Space(s[|s|-1])
    ensures Trim(s) == s && Trim(s + "\n") == s
  {
    assert (s + "\n")[..|s|] == s;
  }

  // ---------- lines ----------

  /** The length of the first line, its newline included. */
  function LineEnd(s: string): (n: nat)
    ensures n <= |s| && (s != [] ==> n > 0)
  {
    if s == [] then 0 else if s[0] == '\n' then 1 else 1 + LineEnd(s[1..])
  }

  lemma {:induction false} LineEndAt(line: string, rest: string)
    requires '\n' !in line
    ensures LineEnd(line + "\n" + rest) == |line| + 1
  {
    var s := line + "\n" + rest;
    if line != [] {
      LineEndAt(line[1..], rest);
      assert s[1..] == line[1..] + "\n" + rest;
      assert s[0] == line[0];
    }
  }

  lemma FirstLine(line: string, rest: string)
    requires '\n' !in line
    ensures var s := line + "\n" + rest; s[..LineEnd(s)] == line + "\n" && s[LineEnd(s)..] == rest
  {
    LineEndAt(line, rest);
  }

  // ---------- words ----------

  function StripPrefix(s: string, prefix: string): Option<string> {
    if prefix <= s then Some(s[|prefix|..]) else None
  }

  lemma StripsBack(prefix: string, s: string)
    ensures StripPrefix(prefix + s, prefix) == Some(s)
  {
  }

  /** `splitn(2, ' ')` when there is a space. */
  function SplitSpace(s: string): Option<(string, string)> {
    if s == [] then None
    else if s[0] == ' ' then Some(([], s[1..]))
    else
      match SplitSpace(s[1..])
      case None => None
      case Some((a, b)) => Some(([s[0]] + a, b))
  }

  lemma {:induction false} SplitsBack(word: string, rest: string)
    requires ' ' !in word
    ensures SplitSpace(word + " " + rest) == Some((word, rest))
  {
    var s := word + " " + rest;
    if word == [] {
      assert s[1..] == rest;
    } else {
      SplitsBack(word[1..], rest);
      assert s[1..] == word[1..] + " " + rest;
      assert [word[0]] + word[1..] == word;
    }
  }

  lemma {:induction false} NoSpaceNoSplit(s: string)
    ensures SplitSpace(s).None? <==> ' ' !in s
  {
    if s != [] {
      NoSpaceNoSplit(s[1..]);
      assert s == [s[0]] + s[1..];
    }
  }

  // ---------- numbers ----------

  const USIZE_MAX: nat := 0xFFFF_FFFF_FFFF_FFFF

  predicate Digit(c: char) { '0' <= c <= '9' }

  function DigitChar(d: nat): char
    requires d < 10
  {
    ('0' as int + d) as char
  }

  function Format(n: nat): (s: string)
    ensures s != [] && forall c :: c in s ==> Digit(c)
  {
    if n < 10 then [DigitChar(n)] else Format(n / 10) + [DigitChar(n % 10)]
  }

  function Digits(s: string): Option<nat> {
    if s == [] then Some(0)
    else
      var c := s[|s|-1];
      match Digits(s[..|s|-1])
      case Some(n) => if Digit(c) then Some(n * 10 + (c as int - '0' as int)) else None
      case None => None
  }

  /** `parse::<usize>`: digits with an optional plus sign, not too large. */
  function ParseUsize(s: string): Option<nat> {
    var digits := if s != [] && s[0] == '+' then s[1..] else s;
    if digits == [] then None
    else
      match Digits(digits)
      case Some(n) => if n <= USIZE_MAX then Some(n) else None
      case None => None
  }

  lemma {:induction false} DigitsFormat(n: nat)
    ensures Digits(Format(n)) == Some(n)
  {
    if n < 10 {
      assert Format(n)[..0] == [];
      assert Digits([]) == Some(0);
    } else {
      DigitsFormat(n / 10);
      assert Format(n)[..|Format(n)|-1] == Format(n / 10);
    }
  }

  lemma {:induction false} DigitsIff(s: string)
    ensures Digits(s).Some? <==> forall c :: c in s ==> Digit(c)
  {
    if s != [] {
      DigitsIff(s[..|s|-1]);
      assert s == s[..|s|-1] + [s[|s|-1]];
    }
  }

  /** Nothing else is taken for a number: neither what holds another character, a plus sign in front apart,
      nor what holds no digit. */
  lemma OnlyDigitsParse(s: string, i: nat)
    ensures i < |s| && !Digit(s[i]) && (i > 0 || s[0] != '+') ==> ParseUsize(s).None?
    ensures ParseUsize("").None? && ParseUsize("+").None?
  {
    var digits := if s != [] && s[0] == '+' then s[1..] else s;
    DigitsIff(digits);
    assert i < |s| && (i > 0 || s[0] != '+') ==> s[i] in digits by {
      if i < |s| && s[0] == '+' && i > 0 {
        assert digits[i-1] == s[i];
      }
    }
  }

  lemma ParseFormat(n: nat)
    requires n <= USIZE_MAX
    ensures ParseUsize(Format(n)) == Some(n)
  {
    DigitsFormat(n);
    assert Format(n)[0] in Format(n);
  }
}

module CacheProtocol {
  import opened Options
  import opened CacheText

  datatype Request = Get(key: string) | Set(key: string, value: string) | Del(key: string) | DelPrefix(prefix: string)

  /** What the clients write. */
  function Encode(r: Request): string {
    match r
    case Get(key) => "GET " + key + "\n"
    case Set(key, value) => "SET " + key + " " + Format(|value|) + "\n" + value + "\n"
    case Del(key) => "DEL " + key + "\n"
    case DelPrefix(prefix) => "DEL_PREFIX " + prefix + "\n"
  }

  function EncodeAll(rs: seq<Request>): string {
    if rs == [] then [] else Encode(rs[0]) + EncodeAll(rs[1..])
  }

  /** A key the protocol can carry. */
  predicate PlainKey(key: string) {
    key != [] && forall c :: c in key ==> !Space(c)
  }

  predicate Plain(r: Request) {
    match r
    case Get(key) => PlainKey(key)
    case Set(key, value) => PlainKey(key) && |value| <= USIZE_MAX
    case Del(key) => PlainKey(key)
    case DelPrefix(prefix) => PlainKey(prefix)
  }

  // ---------- the server's parser ----------

  datatype Parsed =
    | Command(r: Request)
    | Flush
    | InvalidSet
    | InvalidLength
    | Unknown
    | Blank
    | Cut

  /** `process_command` as far as it reads: a header line and, for SET, its payload. */
  function ParseLine(line: string, rest: string): (p: (Parsed, string))
    ensures |p.1| <= |rest|
  {
    if StripPrefix(line, "GET ").Some? then (Command(Get(Trim(StripPrefix(line, "GET ").value))), rest)
    else if StripPrefix(line, "SET ").Some? then
      (match SplitSpace(StripPrefix(line, "SET ").value)
       case None => (InvalidSet, rest)
       case Some((key, size)) =>
         match ParseUsize(size)
         case None => (InvalidLength, rest)
         case Some(len) =>
           if |rest| < len then (Cut, [])
           else (Command(Set(key, rest[..len])), if |rest| > len then rest[len+1..] else []))
    else if StripPrefix(line, "DEL ").Some? then (Command(Del(Trim(StripPrefix(line, "DEL ").value))), rest)
    else if StripPrefix(line, "DEL_PREFIX ").Some? then (Command(DelPrefix(Trim(StripPrefix(line, "DEL_PREFIX ").value))), rest)
    else if line == "FLUSH" then (Flush, rest)
    else (Unknown, rest)
  }

  /** What was read first, and what is left. */
  function ParseOne(s: string): (p: (Parsed, string))
    requires s != []
    ensures |p.1| < |s|
  {
    var n := LineEnd(s);
    var line := Trim(s[..n]);
    if line == [] then (Blank, s[n..]) else ParseLine(line, s[n..])
  }

  /** Everything a connection carries. */
  function ParseAll(s: string): seq<Parsed>
    decreases |s|
  {
    if s == [] then [] else [ParseOne(s).0] + ParseAll(ParseOne(s).1)
  }

  // ---------- round trip ----------

  lemma HeaderLine(word: string, body: string, rest: string)
    requires word != [] && !Space(word[0]) && '\n' !in word
    requires body != [] && !Space(body[|body|-1]) && '\n' !in body
    ensures var s := word + body + "\n" + rest;
      s != [] && Trim(s[..LineEnd(s)]) == word + body && s[LineEnd(s)..] == rest
  {
    var line := word + body;
    FirstLine(line, rest);
    TrimLine(line);
  }

  lemma PlainKeyTrims(key: string)
    requires PlainKey(key)
    ensures Trim(key) == key && '\n' !in key && ' ' !in key && !Space(key[|key|-1])
  {
    assert key[0] in key && key[|key|-1] in key;
  }

  lemma FormatEnds(n: nat)
    ensures var s := Format(n); !Space(s[|s|-1]) && '\n' !in s
  {
    var s := Format(n);
    assert s[|s|-1] in s;
  }

  lemma ParseGet(key: string, rest: string)
    requires PlainKey(key)
    ensures ParseOne(Encode(Get(key)) + rest) == (Command(Get(key)), rest)
  {
    PlainKeyTrims(key);
    HeaderLine("GET ", key, rest);
    StripsBack("GET ", key);
    assert "GET " + key + "\n" + rest == Encode(Get(key)) + rest;
  }

  lemma NotPrefix(word: string, key: string, other: string, i: nat)
    requires i < |word| && i < |other| && word[i] != other[i]
    ensures StripPrefix(word + key, other) == None
  {
    assert (word + key)[i] == word[i];
  }

  lemma ParseDel(key: string, rest: string)
    requires PlainKey(key)
    ensures ParseOne(Encode(Del(key)) + rest) == (Command(Del(key)), rest)
  {
    PlainKeyTrims(key);
    HeaderLine("DEL ", key, rest);
    NotPrefix("DEL ", key, "GET ", 0);
    NotPrefix("DEL ", key, "SET ", 0);
    StripsBack("DEL ", key);
    assert "DEL " + key + "\n" + rest == Encode(Del(key)) + rest;
  }

  lemma ParseDelPrefix(prefix: string, rest: string)
    requires PlainKey(prefix)
    ensures ParseOne(Encode(DelPrefix(prefix)) + rest) == (Command(DelPrefix(prefix)), rest)
  {
    PlainKeyTrims(prefix);
    HeaderLine("DEL_PREFIX ", prefix, rest);
    NotPrefix("DEL_PREFIX ", prefix, "GET ", 0);
    NotPrefix("DEL_PREFIX ", prefix, "SET ", 0);
    NotPrefix("DEL_PREFIX ", prefix, "DEL ", 3);
    StripsBack("DEL_PREFIX ", prefix);
    assert "DEL_PREFIX " + prefix + "\n" + rest == Encode(DelPrefix(prefix)) + rest;
  }

  lemma ParseSetLine(key: string, value: string, rest: string)
    requires PlainKey(key) && |value| <= USIZE_MAX
    ensures ParseLine("SET " + (key + " " + Format(|value|)), value + "\n" + rest) == (Command(Set(key, value)), rest)
  {
    var size := Format(|value|);
    var body := key + " " + size;
    var tail := value + "\n" + rest;
    PlainKeyTrims(key);
    NotPrefix("SET ", body, "GET ", 0);
    StripsBack("SET ", body);
    SplitsBack(key, size);
    ParseFormat(|value|);
    assert tail[..|value|] == value && tail[|value|+1..] == rest;
  }

  lemma ParseFromLine(word: string, body: string, rest: string)
    requires word != [] && !Space(word[0]) && '\n' !in word
    requires body != [] && !Space(body[|body|-1]) && '\n' !in body
    ensures ParseOne(word + body + "\n" + rest) == ParseLine(word + body, rest)
  {
    HeaderLine(word, body, rest);
  }

  lemma SetParts(key: string, value: string, rest: string)
    requires PlainKey(key)
    ensures var body := key + " " + Format(|value|);
      && Encode(Set(key, value)) + rest == "SET " + body + "\n" + (value + "\n" + rest)
      && body != [] && !Space(body[|body|-1]) && '\n' !in body
  {
    var body := key + " " + Format(|value|);
    PlainKeyTrims(key);
    FormatEnds(|value|);
    assert body[|body|-1] == Format(|value|)[|Format(|value|)|-1];
  }

  lemma ParseSet(key: string, value: string, rest: string)
    requires PlainKey(key) && |value| <= USIZE_MAX
    ensures ParseOne(Encode(Set(key, value)) + rest) == (Command(Set(key, value)), rest)
  {
    var body := key + " " + Format(|value|);
    var tail := value + "\n" + rest;
    calc {
      ParseOne(Encode(Set(key, value)) + rest);
      { SetParts(key, value, rest); }
      ParseOne("SET " + body + "\n" + tail);
      { SetParts(key, value, rest); ParseFromLine("SET ", body, tail); }
      ParseLine("SET " + body, tail);
      { ParseSetLine(key, value, rest); }
      (Command(Set(key, value)), rest);
    }
  }

  /** The server reads back what a client wrote, and nothing of what follows. */
  lemma RoundTrip(r: Request, rest: string)
    requires Plain(r)
    ensures ParseOne(Encode(r) + rest) == (Command(r), rest)
  {
    match r
    case Get(key) => ParseGet(key, rest);
    case Set(key, value) => ParseSet(key, value, rest);
    case Del(key) => ParseDel(key, rest);
    case DelPrefix(prefix) => ParseDelPrefix(prefix, rest);
  }

  lemma ParseNext(r: Request, rest: string)
    requires Plain(r)
    ensures ParseAll(Encode(r) + rest) == [Command(r)] + ParseAll(rest)
  {
    RoundTrip(r, rest);
    assert Encode(r) + rest != [];
  }

  function Commands(rs: seq<Request>): seq<Parsed> {
    if rs == [] then [] else [Command(rs[0])] + Commands(rs[1..])
  }

  /** Any number of requests, whatever bytes their values hold, come back as they were and leave
      nothing over. */
  lemma {:induction false} RoundTripAll(rs: seq<Request>)
    requires forall r :: r in rs ==> Plain(r)
    ensures ParseAll(EncodeAll(rs)) == Commands(rs)
  {
    if rs != [] {
      ParseNext(rs[0], EncodeAll(rs[1..]));
      RoundTripAll(rs[1..]);
    }
  }

  // ---------- the server ----------

  type Cache = map<string, string>

  function Execute(cache: Cache, p: Parsed): Cache {
    match p
    case Command(Set(key, value)) => cache[key := value]
    case Command(Del(key)) => cache - {key}
    case Command(DelPrefix(prefix)) => map k | k in cache && !(prefix <= k) :: cache[k]
    // `flush` of the redb and sqlite backends removes nothing
    case _ => cache
  }

  function Reply(cache: Cache, p: Parsed): string {
    match p
    case Command(Get(key)) => if key in cache then "HIT " + Format(|cache[key]|) + "\n" + cache[key] + "\n" else "MISS\n"
    case Command(_) => "OK\n"
    case Flush => "OK\n"
    case InvalidSet => "ERR invalid SET\n"
    case InvalidLength => "ERR invalid length\n"
    case Unknown => "ERR unknown command\n"
    case Blank => ""
    case Cut => ""
  }

  function ExecuteAll(cache: Cache, ps: seq<Parsed>): Cache
    decreases |ps|
  {
    if ps == [] then cache else ExecuteAll(Execute(cache, ps[0]), ps[1..])
  }

  function Replies(cache: Cache, ps: seq<Parsed>): string
    decreases |ps|
  {
    if ps == [] then [] else Reply(cache, ps[0]) + Replies(Execute(cache, ps[0]), ps[1..])
  }

  /** Whatever is wrong with a request, the cache stays as it was and the answer says what it is. */
  lemma MistakesChangeNothing(cache: Cache, line: string, rest: string)
    ensures "SET " <= line && ' ' !in line[4..] ==>
              var (p, left) := ParseLine(line, rest);
              Execute(cache, p) == cache && Reply(cache, p) == "ERR invalid SET\n" && left == rest
    ensures !("GET " <= line || "SET " <= line || "DEL " <= line || "DEL_PREFIX " <= line || line == "FLUSH") ==>
              var (p, left) := ParseLine(line, rest);
              Execute(cache, p) == cache && Reply(cache, p) == "ERR unknown command\n" && left == rest
  {
    if "SET " <= line {
      NotPrefix("SET ", line[4..], "GET ", 0);
      assert line == "SET " + line[4..];
      NoSpaceNoSplit(line[4..]);
    }
  }

  /** A SET whose length is no number. */
  lemma WrongLengthChangesNothing(cache: Cache, key: string, size: string, rest: string, i: nat)
    requires ' ' !in key && i < |size| && !Digit(size[i]) && (i > 0 || size[0] != '+')
    ensures var (p, left) := ParseLine("SET " + (key + " " + size), rest);
      Execute(cache, p) == cache && Reply(cache, p) == "ERR invalid length\n" && left == rest
  {
    NotPrefix("SET ", key + " " + size, "GET ", 0);
    StripsBack("SET ", key + " " + size);
    SplitsBack(key, size);
    OnlyDigitsParse(size, i);
  }

  /** A SET whose connection breaks off inside the payload stores nothing, is not answered, and ends the
      connection. */
  lemma CutStoresNothing(cache: Cache, key: string, len: nat, part: string)
    requires PlainKey(key) && |part| < len <= USIZE_MAX
    ensures var input := "SET " + (key + " " + Format(len)) + "\n" + part;
      && |ParseAll(input)| == 1
      && ExecuteAll(cache, ParseAll(input)) == cache && Replies(cache, ParseAll(input)) == ""
  {
    var body := key + " " + Format(len);
    PlainKeyTrims(key);
    FormatEnds(len);
    assert body[|body|-1] == Format(len)[|Format(len)|-1];
    ParseFromLine("SET ", body, part);
    CutLine(key, len, part);
    var input := "SET " + body + "\n" + part;
    assert ParseAll(input) == [Cut] + ParseAll([]);
    assert [Cut][1..] == [];
  }

  lemma CutLine(key: string, len: nat, part: string)
    requires PlainKey(key) && |part| < len <= USIZE_MAX
    ensures ParseLine("SET " + (key + " " + Format(len)), part) == (Cut, [])
  {
    var body := key + " " + Format(len);
    PlainKeyTrims(key);
    NotPrefix("SET ", body, "GET ", 0);
    StripsBack("SET ", body);
    SplitsBack(key, Format(len));
    ParseFormat(len);
  }

  /** `process_command` */
  method ProcessCommand(cache: Cache, line: string, reader: string) returns (cache': Cache, reply: string, left: string, ok: bool)
    ensures var p := ParseLine(line, reader);
      cache' == Execute(cache, p.0) && reply == Reply(cache, p.0) && left == p.1 && (ok <==> p.0 != Cut)
    // without an answer nothing is stored, and an error is answered without reading on
    ensures !ok ==> cache' == cache && reply == "" && left == []
    ensures reply != [] && reply[0] == 'E' ==> cache' == cache && left == reader
  {
    cache', reply, left, ok := cache, "", reader, true;
    var get, set_ := StripPrefix(line, "GET "), StripPrefix(line, "SET ");
    var del, delPrefix := StripPrefix(line, "DEL "), StripPrefix(line, "DEL_PREFIX ");
    if get.Some? {
      var key := Trim(get.value);
      if key in cache {
        reply := "HIT " + Format(|cache[key]|) + "\n" + cache[key] + "\n";
      } else {
        reply := "MISS\n";
      }
    } else if set_.Some? {
      var parts := SplitSpace(set_.value);
      if parts.None? {
        reply := "ERR invalid SET\n";
        return;
      }
      var len := ParseUsize(parts.value.1);
      if len.None? {
        reply := "ERR invalid length\n";
        return;
      }
      if |reader| < len.value {
        return cache, "", [], false;
      }
      cache' := cache[parts.value.0 := reader[..len.value]];
      left := if |reader| > len.value then reader[len.value + 1..] else [];
      reply := "OK\n";
    } else if del.Some? {
      cache' := cache - {Trim(del.value)};
      reply := "OK\n";
    } else if delPrefix.Some? {
      cache' := map k | k in cache && !(Trim(delPrefix.value) <= k) :: cache[k];
      reply := "OK\n";
    } else if line == "FLUSH" {
      reply := "OK\n";
    } else {
      reply := "ERR unknown command\n";
    }
  }

  lemma ServeStep(cache: Cache, s: string)
    requires s != []
    ensures var (p, rest) := ParseOne(s);
      && ExecuteAll(cache, ParseAll(s)) == ExecuteAll(Execute(cache, p), ParseAll(rest))
      && Replies(cache, ParseAll(s)) == Reply(cache, p) + Replies(Execute(cache, p), ParseAll(rest))
  {
    var (p, rest) := ParseOne(s);
    assert ([p] + ParseAll(rest))[1..] == ParseAll(rest);
  }

  /** One turn of the loop of `handle_client`. */
  method ServeOne(cache: Cache, reader: string) returns (cache': Cache, reply: string, left: string)
    requires reader != []
    ensures var (p, rest) := ParseOne(reader); cache' == Execute(cache, p) && reply == Reply(cache, p) && left == rest
  {
    var n := LineEnd(reader);
    var line := Trim(reader[..n]);
    if line == [] {
      return cache, "", reader[n..];
    }
    var ok;
    cache', reply, left, ok := ProcessCommand(cache, line, reader[n..]);
    if !ok {
      left := [];
    }
  }

  /** `handle_client`: everything a connection carries, answered in order. */
  method HandleClient(cache: Cache, input: string) returns (cache': Cache, output: string)
    ensures cache' == ExecuteAll(cache, ParseAll(input))
    ensures output == Replies(cache, ParseAll(input))
  {
    cache', output := cache, "";
    var reader := input;
    while reader != []
      invariant ExecuteAll(cache', ParseAll(reader)) == ExecuteAll(cache, ParseAll(input))
      invariant output + Replies(cache', ParseAll(reader)) == Replies(cache, ParseAll(input))
      decreases |reader|
    {
      ServeStep(cache', reader);
      ghost var (p, rest) := ParseOne(reader);
      Associates(output, Reply(cache', p), Replies(Execute(cache', p), ParseAll(rest)));
      var reply, left;
      cache', reply, left := ServeOne(cache', reader);
      output := output + reply;
      reader := left;
    }
    assert output + [] == output;
  }

  lemma Associates(a: string, b: string, c: string)
    ensures a + (b + c) == a + b + c
  {
  }

  // ---------- the clients ----------

  datatype Answer = Value(value: Option<string>) | Done(ok: bool)

  /** The client's reading of the answer to GET. */
  function ReadValue(s: string): Option<string>
    decreases |s|
  {
    if s == [] then None
    else
      var n := LineEnd(s);
      var line, rest := Trim(s[..n]), s[n..];
      if line == [] then ReadValue(rest)
      else if StripPrefix(line, "HIT ").None? then None
      else
        match ParseUsize(Trim(StripPrefix(line, "HIT ").value))
        case None => None
        case Some(len) => if len <= |rest| then Some(rest[..len]) else None
  }

  function ReadAnswer(r: Request, reply: string): Answer {
    if r.Get? then Value(ReadValue(reply)) else Done(Trim(reply[..LineEnd(reply)]) == "OK")
  }

  /** A request sent alone over a connection: the answer the client sees, and the cache afterwards. */
  function Roundtrip(cache: Cache, r: Request): (Answer, Cache) {
    var parsed := ParseAll(Encode(r));
    (ReadAnswer(r, Replies(cache, parsed)), ExecuteAll(cache, parsed))
  }

  /** What a map answers. */
  function MapAnswer(cache: Cache, r: Request): Answer {
    match r
    case Get(key) => Value(if key in cache then Some(cache[key]) else None)
    case _ => Done(true)
  }

  function MapAfter(cache: Cache, r: Request): Cache {
    match r
    case Get(_) => cache
    case Set(key, value) => cache[key := value]
    case Del(key) => cache - {key}
    case DelPrefix(prefix) => map k | k in cache && !(prefix <= k) :: cache[k]
  }

  predicate Sized(cache: Cache) {
    forall k :: k in cache ==> |cache[k]| <= USIZE_MAX
  }

  lemma {:induction false} HitIsRead(value: string)
    requires |value| <= USIZE_MAX
    ensures ReadValue("HIT " + Format(|value|) + "\n" + value + "\n") == Some(value)
  {
    var size := Format(|value|);
    var tail := value + "\n";
    FormatEnds(|value|);
    HeaderLine("HIT ", size, tail);
    StripsBack("HIT ", size);
    assert !Space(size[0]) by { assert size[0] in size; }
    TrimLine(size);
    ParseFormat(|value|);
    assert "HIT " + size + "\n" + tail == "HIT " + size + "\n" + value + "\n";
    assert tail[..|value|] == value;
  }

  lemma PlainReplies()
    ensures ReadValue("MISS\n") == None && Trim("OK\n"[..LineEnd("OK\n")]) == "OK"
  {
    FirstLine("MISS", "");
    assert "MISS" + "\n" + "" == "MISS\n";
    TrimLine("MISS");
    FirstLine("OK", "");
    assert "OK" + "\n" + "" == "OK\n";
    TrimLine("OK");
  }

  /** In lockstep the cache behaves as a map. */
  lemma RoundtripIsMap(cache: Cache, r: Request)
    requires Plain(r) && Sized(cache)
    ensures Roundtrip(cache, r) == (MapAnswer(cache, r), MapAfter(cache, r)) && Sized(MapAfter(cache, r))
  {
    ParseNext(r, []);
    assert Encode(r) + [] == Encode(r);
    var parsed := ParseAll(Encode(r));
    assert parsed == [Command(r)];
    assert ExecuteAll(Execute(cache, Command(r)), parsed[1..]) == Execute(cache, Command(r));
    assert Replies(cache, parsed) == Reply(cache, Command(r)) + [] == Reply(cache, Command(r));
    PlainReplies();
    match r
    case Get(key) => if key in cache { HitIsRead(cache[key]); }
    case _ =>
  }

  function MapTrip(cache: Cache, r: Request): (Answer, Cache) { (MapAnswer(cache, r), MapAfter(cache, r)) }

  /** The answers of a session, request by request. */
  function Session(trip: (Cache, Request) -> (Answer, Cache), cache: Cache, rs: seq<Request>): seq<Answer>
    decreases |rs|
  {
    if rs == [] then [] else [trip(cache, rs[0]).0] + Session(trip, trip(cache, rs[0]).1, rs[1..])
  }

  ghost predicate Agree(f: (Cache, Request) -> (Answer, Cache), g: (Cache, Request) -> (Answer, Cache), cache: Cache, r: Request) {
    Plain(r) && Sized(cache) ==> f(cache, r) == g(cache, r) && Sized(g(cache, r).1)
  }

  lemma {:induction false} SameSession(f: (Cache, Request) -> (Answer, Cache), g: (Cache, Request) -> (Answer, Cache),
                                       cache: Cache, rs: seq<Request>)
    requires forall c, r :: Agree(f, g, c, r)
    requires Sized(cache) && forall r :: r in rs ==> Plain(r)
    ensures Session(f, cache, rs) == Session(g, cache, rs)
    decreases |rs|
  {
    if rs != [] {
      assert Agree(f, g, cache, rs[0]);
      SameSession(f, g, g(cache, rs[0]).1, rs[1..]);
    }
  }

  /** ... over any session. */
  lemma SessionIsMap(cache: Cache, rs: seq<Request>)
    requires Sized(cache) && forall r :: r in rs ==> Plain(r)
    ensures Session(Roundtrip, cache, rs) == Session(MapTrip, cache, rs)
  {
    forall c: Cache, r: Request
      ensures Agree(Roundtrip, MapTrip, c, r)
    {
      if Plain(r) && Sized(c) {
        RoundtripIsMap(c, r);
      }
    }
    SameSession(Roundtrip, MapTrip, cache, rs);
  }

  // ---------- cache keys ----------

  function CacheKey(store: string, entity: string, key: string): string {
    "c:" + store + ":" + entity + ":" + key
  }

  lemma InFront(b: string, y: string, i: nat)
    ensures i < |b| ==> (b + ":" + y)[i] in b
  {
    assert i < |b| ==> (b + ":" + y)[i] == b[i];
  }

  lemma NotShorter(a: string, b: string, x: string, y: string)
    requires ':' !in b && a + ":" + x == b + ":" + y
    ensures |a| >= |b|
  {
    assert (a + ":" + x)[|a|] == ':';
    InFront(b, y, |a|);
  }

  lemma UpToColon(a: string, b: string, x: string, y: string)
    requires ':' !in a && ':' !in b && a + ":" + x == b + ":" + y
    ensures a == b && x == y
  {
    NotShorter(a, b, x, y);
    NotShorter(b, a, y, x);
    var s := a + ":" + x;
    assert s == b + ":" + y;
    assert a == s[..|a|] && b == s[..|b|];
    assert x == s[|a|+1..] && y == s[|b|+1..];
  }

  /** Records get different cache keys as long as store and entity names hold no colon. */
  lemma CacheKeyInjective(store: string, entity: string, key: string, store': string, entity': string, key': string)
    requires ':' !in store && ':' !in entity && ':' !in store' && ':' !in entity'
    requires CacheKey(store, entity, key) == CacheKey(store', entity', key')
    ensures store == store' && entity == entity' && key == key'
  {
    var x, y := entity + ":" + key, entity' + ":" + key';
    assert CacheKey(store, entity, key)[2..] == store + ":" + x;
    assert CacheKey(store', entity', key')[2..] == store' + ":" + y;
    UpToColon(store, store', x, y);
    UpToColon(entity, entity', key, key');
  }

  lemma CacheKeysCollide()
    ensures CacheKey("s", "a:b", "c") == CacheKey("s", "a", "b:c")
  {
  }

  lemma PrefixOfName(store: string, other: string, rest: string)
    requires ':' !in store
    ensures store <= other + ":" + rest <==> store <= other
  {
    var s := other + ":" + rest;
    if store <= s {
      assert s[|other|] == ':';
      PrefixMember(store, s, |other|);
      assert store == s[..|store|] == other[..|store|];
    }
  }

  lemma PrefixMember(a: string, s: string, i: nat)
    requires a <= s
    ensures i < |a| ==> s[i] in a
  {
    assert i < |a| ==> s[i] == a[i];
  }

  lemma SamePrefix(word: string, a: string, s: string)
    ensures word + a <= word + s <==> a <= s
  {
    if word + a <= word + s {
      assert (word + a)[|word|..] == a && (word + s)[|word|..] == s;
      assert (word + s)[..|word + a|] == word + a;
      assert s[..|a|] == (word + s)[..|word + a|][|word|..];
    }
  }

  /** `delete_by_store` removes by the prefix "c:" and the name, so it takes along the records of
      exactly those stores whose name begins with the given one. */
  lemma DeleteByStoreReaches(store: string, other: string, entity: string, key: string, cache: Cache)
    requires ':' !in store && CacheKey(other, entity, key) in cache
    ensures CacheKey(other, entity, key) !in MapAfter(cache, DelPrefix("c:" + store)) <==> store <= other
  {
    var rest := entity + ":" + key;
    assert CacheKey(other, entity, key) == "c:" + (other + ":" + rest);
    SamePrefix("c:", store, other + ":" + rest);
    PrefixOfName(store, other, rest);
  }
}
