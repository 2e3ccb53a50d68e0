/** The chat history file: the latest messages of the latest lobbies, rewritten whole on every new
    message and checked line by line when it is read. */
module ChatCache {
  import opened Sequences
  import opened ChatText
  import opened ChatRecord

  const MAX_CONTEXTS: nat := 8
  const MAX_MESSAGES: nat := 50
  const MAX_FILE: nat := 262144
  const RETENTION: nat := 604800
  const TOLERANCE: nat := 300
  const LINE_BYTES: nat := 768
  const HEADER := "SHROOM_CHAT_CACHE_V3\n"

  predicate IsTooNew(timestamp: nat, now: nat) {
    timestamp > now && timestamp - now > TOLERANCE
  }

  predicate IsRetained(timestamp: nat, now: nat) {
    && timestamp != 0 && !IsTooNew(timestamp, now)
    && (now <= timestamp || now - timestamp <= RETENTION)
  }

  // ----- keys -----

  predicate IsHostChar(c: char) {
    || '0' <= c <= '9' || 'a' <= c <= 'z' || 'A' <= c <= 'Z' || c == '.' || c == '-' || c == ':'
  }

  function Lower(c: char): char {
    if 'A' <= c <= 'Z' then c - 'A' + 'a' else c
  }

  function LowerHost(host: string): Option<string> {
    if host == "" then Some("")
    else
      var n := |host| - 1;
      var front := LowerHost(host[..n]);
      if front.None? || !IsHostChar(host[n]) then None
      else Some(front.value + [Lower(host[n])])
  }

  function Fitting(host: string): string {
    if |host| < HOST_SIZE then host else host[..HOST_SIZE - 1]
  }

  /** The form a key is stored and compared in. */
  function Normalized(k: Key): Option<Key> {
    var host := LowerHost(Fitting(k.host));
    if k.port == 0 || k.lobby == 0 || k.identity == 0 || host.None? || host.value == "" then None
    else Some(k.(host := host.value))
  }

  method NormalizeKey(source: Key) returns (key: Option<Key>)
    ensures key == Normalized(source)
  {
    if source.port == 0 || source.lobby == 0 || source.identity == 0 {
      return None;
    }
    var cursor := Fitting(source.host);
    var host := "";
    for index := 0 to |cursor|
      invariant LowerHost(cursor[..index]) == Some(host)
    {
      assert cursor[..index + 1][..index] == cursor[..index];
      if !IsHostChar(cursor[index]) {
        RejectedPrefix(cursor, index + 1);
        return None;
      }
      host := host + [Lower(cursor[index])];
    }
    assert cursor[..|cursor|] == cursor;
    return if host == "" then None else Some(source.(host := host));
  }

  lemma {:induction false} RejectedPrefix(host: string, n: nat)
    requires n <= |host| && LowerHost(host[..n]).None?
    ensures LowerHost(host).None?
    decreases |host|
  {
    if n == |host| {
      assert host[..n] == host;
    } else {
      assert host[..|host| - 1][..n] == host[..n];
      RejectedPrefix(host[..|host| - 1], n);
    }
  }

  predicate IsNormal(k: Key) {
    && k.port != 0 && k.lobby != 0 && k.identity != 0 && 0 < |k.host| < HOST_SIZE
    && forall i :: 0 <= i < |k.host| ==> IsHostChar(k.host[i]) && Lower(k.host[i]) == k.host[i]
  }

  lemma {:induction false} LowerHostIsLower(host: string)
    ensures LowerHost(host).Some? ==>
              && |LowerHost(host).value| == |host|
              && forall i :: 0 <= i < |host| ==>
                   var c := LowerHost(host).value[i]; IsHostChar(c) && Lower(c) == c
  {
    if host != "" {
      LowerHostIsLower(host[..|host| - 1]);
    }
  }

  lemma {:induction false} LowerHostIsKept(host: string)
    requires forall i :: 0 <= i < |host| ==> IsHostChar(host[i]) && Lower(host[i]) == host[i]
    ensures LowerHost(host) == Some(host)
  {
    hide IsHostChar, Lower;
    if host != "" {
      LowerHostIsKept(host[..|host| - 1]);
      assert host == host[..|host| - 1] + [host[|host| - 1]];
    }
  }

  /** A normalized key is normal, and normalizing it again changes nothing. */
  lemma NormalizingIsIdempotent(k: Key)
    ensures Normalized(k).Some? ==>
              IsNormal(Normalized(k).value) && Normalized(Normalized(k).value) == Normalized(k)
    ensures IsNormal(k) ==> Normalized(k) == Some(k)
  {
    hide IsHostChar, Lower;
    LowerHostIsLower(Fitting(k.host));
    if Normalized(k).Some? {
      LowerHostIsKept(Normalized(k).value.host);
    }
    if IsNormal(k) {
      LowerHostIsKept(k.host);
    }
  }

  // ----- the cache in memory -----

  datatype Context = Context(key: Key, messages: seq<Message>)

  type Cache = seq<Context>

  /** The position of a key's context, or the length of the cache. */
  function IndexOf(cache: Cache, key: Key): (index: nat)
    ensures index <= |cache|
    ensures index < |cache| ==> cache[index].key == key
    ensures forall i :: 0 <= i < index ==> cache[i].key != key
  {
    if cache == [] then 0
    else
      var n := |cache| - 1;
      var index := IndexOf(cache[..n], key);
      if index < n then index else if cache[n].key == key then n else n + 1
  }

  method FindContext(cache: Cache, key: Key) returns (index: nat)
    ensures index == IndexOf(cache, key)
  {
    for i := 0 to |cache|
      invariant forall j :: 0 <= j < i ==> cache[j].key != key
    {
      if cache[i].key == key {
        return i;
      }
    }
    return |cache|;
  }

  /** The newest messages, the oldest giving way. */
  function Appended(messages: seq<Message>, m: Message): seq<Message> {
    (if |messages| == MAX_MESSAGES then messages[1..] else messages) + [m]
  }

  predicate AreDuplicates(a: Message, b: Message) {
    a.id != 0 && a.id == b.id
  }

  /** A message read from the file; a ninth context is passed over. */
  function WithLoaded(cache: Cache, key: Key, m: Message): Cache {
    var i := IndexOf(cache, key);
    if i == |cache| then (if |cache| == MAX_CONTEXTS then cache else cache + [Context(key, [m])])
    else
      var messages := cache[i].messages;
      if messages != [] && AreDuplicates(messages[|messages| - 1], m) then cache
      else cache[i := Context(key, Appended(messages, m))]
  }

  /** Room for the key's context; the oldest context gives way. */
  function WithContext(cache: Cache, key: Key): (after: Cache)
    ensures IndexOf(after, key) < |after|
  {
    if IndexOf(cache, key) < |cache| then cache
    else
      var kept := if |cache| == MAX_CONTEXTS then cache[1..] else cache;
      var after := kept + [Context(key, [])];
      assert after[|kept|].key == key;
      after
  }

  function WithMessage(cache: Cache, key: Key, m: Message): Cache {
    var after := WithContext(cache, key);
    var i := IndexOf(after, key);
    after[i := Context(key, Appended(after[i].messages, m))]
  }

  function Cleaned(m: Message): Message {
    m.(name := Sanitized(m.name, NAME_SIZE), text := Sanitized(m.text, TEXT_SIZE))
  }

  // ----- reading the file -----

  datatype File = Missing | Unreadable | Contents(text: string)

  /** How much one read takes: a line with its end, or as much as the buffer holds. */
  function LineLength(text: string, room: nat): (n: nat)
    ensures n <= |text| && n <= room
    ensures text != "" && room > 0 ==> n > 0
  {
    if text == "" || room == 0 then 0
    else if text[0] == '\n' then 1
    else 1 + LineLength(text[1..], room - 1)
  }

  /** One line's effect on the cache, or None when it spoils the whole file. */
  function LoadedLine(cache: Cache, line: string, now: nat): Option<Cache> {
    if line == "" || 0 as char in line || line[|line| - 1] != '\n' then None
    else
      var record := ParsedRecord(line[..|line| - 1]);
      if record.None? then None
      else
        var key, m := Normalized(record.value.0), record.value.1;
        if key.None? || m.timestamp == 0 || IsTooNew(m.timestamp, now) then None
        else if !IsRetained(m.timestamp, now) then Some(cache)
        else
          var clean := Cleaned(m);
          if clean.name == "" || clean.text == "" then None
          else Some(WithLoaded(cache, key.value, clean))
  }

  function LoadedLines(text: string, now: nat, cache: Cache): Option<Cache>
    decreases |text|
  {
    if text == "" then Some(cache)
    else
      var n := LineLength(text, LINE_BYTES - 1);
      var next := LoadedLine(cache, text[..n], now);
      if next.None? then None else LoadedLines(text[n..], now, next.value)
  }

  /** The cache a file holds, or None when it is refused. */
  function Loaded(file: File, now: nat): Option<Cache> {
    match file
    case Missing => Some([])
    case Unreadable => None
    case Contents(text) =>
      if text == "" || |text| > MAX_FILE then None
      else
        var n := LineLength(text, LINE_BYTES - 1);
        if text[..n] != HEADER then None else LoadedLines(text[n..], now, [])
  }

  method LoadCache(file: File, now: nat) returns (result: Option<Cache>)
    ensures result == Loaded(file, now)
  {
    hide LoadedLine, LineLength;
    if file.Missing? {
      return Some([]);
    }
    if file.Unreadable? || file.text == "" || |file.text| > MAX_FILE {
      return None;
    }
    var length := LineLength(file.text, LINE_BYTES - 1);
    if file.text[..length] != HEADER {
      return None;
    }
    var rest, cache := file.text[length..], [];
    while rest != ""
      invariant LoadedLines(rest, now, cache) == Loaded(file, now)
      decreases |rest|
    {
      var n := LineLength(rest, LINE_BYTES - 1);
      var next := LoadLine(cache, rest[..n], now);
      if next.None? {
        return None;
      }
      rest, cache := rest[n..], next.value;
    }
    return Some(cache);
  }

  method LoadLine(cache: Cache, line: string, now: nat) returns (result: Option<Cache>)
    ensures result == LoadedLine(cache, line, now)
  {
    hide ParsedRecord, Normalized, Sanitized, IndexOf;
    if line == "" || 0 as char in line || line[|line| - 1] != '\n' {
      return None;
    }
    var record := ParsedRecord(line[..|line| - 1]);
    if record.None? {
      return None;
    }
    var m := record.value.1;
    var key := NormalizeKey(record.value.0);
    if key.None? || m.timestamp == 0 || IsTooNew(m.timestamp, now) {
      return None;
    }
    if !IsRetained(m.timestamp, now) {
      return Some(cache);
    }
    var name := SanitizeText(m.name, NAME_SIZE);
    var text := SanitizeText(m.text, TEXT_SIZE);
    if name == "" || text == "" {
      return None;
    }
    var clean := m.(name := name, text := text);
    var i := FindContext(cache, key.value);
    if i == |cache| {
      if |cache| == MAX_CONTEXTS {
        return Some(cache);
      }
      return Some(cache + [Context(key.value, [clean])]);
    }
    var messages := cache[i].messages;
    if messages == [] || !AreDuplicates(messages[|messages| - 1], clean) {
      return Some(cache[i := Context(key.value, Appended(messages, clean))]);
    }
    return Some(cache);
  }

  // ----- writing the file -----

  function ContextLines(key: Key, messages: seq<Message>): seq<string> {
    if messages == [] then []
    else
      var n := |messages| - 1;
      ContextLines(key, messages[..n]) + [RecordText(key, messages[n]) + "\n"]
  }

  function CacheLines(cache: Cache): seq<string> {
    if cache == [] then []
    else
      var n := |cache| - 1;
      CacheLines(cache[..n]) + ContextLines(cache[n].key, cache[n].messages)
  }

  function FileText(cache: Cache): string {
    HEADER + Flatten(CacheLines(cache))
  }

  lemma NoLines()
    ensures Flatten<char>([]) == []
  {
  }

  /** The text of the temporary file that replaces the old one. */
  method SaveCache(cache: Cache) returns (text: string)
    ensures text == FileText(cache)
  {
    hide RecordText, Flatten;
    text := HEADER;
    ghost var lines: seq<string> := [];
    NoLines();
    for i := 0 to |cache|
      invariant lines == CacheLines(cache[..i]) && text == HEADER + Flatten(lines)
    {
      assert cache[..i + 1][..i] == cache[..i];
      var context := cache[i];
      ghost var before := lines;
      for j := 0 to |context.messages|
        invariant lines == before + ContextLines(context.key, context.messages[..j])
        invariant text == HEADER + Flatten(lines)
      {
        assert context.messages[..j + 1][..j] == context.messages[..j];
        var line := RecordText(context.key, context.messages[j]) + "\n";
        FlattenAppend(lines, line);
        text := text + line;
        lines := lines + [line];
      }
      assert context.messages[..|context.messages|] == context.messages;
    }
    assert cache[..|cache|] == cache;
  }

  // ----- storing and reading back -----

  predicate IsAcceptable(k: Key, m: Message, now: nat) {
    && m.id != 0 && Normalized(k).Some? && IsRetained(m.timestamp, now)
    && Cleaned(m).name != "" && Cleaned(m).text != ""
  }

  /** The history a new message is added to; a refused file counts as empty. */
  function History(file: File, now: nat): Cache {
    var loaded := Loaded(file, now);
    if loaded.None? then [] else loaded.value
  }

  predicate IsKnown(cache: Cache, key: Key, m: Message) {
    var i := IndexOf(cache, key);
    i < |cache| && exists old_ :: old_ in cache[i].messages && AreDuplicates(old_, m)
  }

  /** The file after a message arrives, and whether it counts as stored. */
  function Stored(file: File, readable: bool, k: Key, m: Message, now: nat, writes: bool)
    : (File, bool)
  {
    if !IsAcceptable(k, m, now) then (file, false)
    else
      var history := History(if readable then file else Unreadable, now);
      var key, clean := Normalized(k).value, Cleaned(m);
      if IsKnown(history, key, clean) then (file, true)
      else if writes then (Contents(FileText(WithMessage(history, key, clean))), true)
      else (file, false)
  }

  /** The newest messages of one lobby. */
  function LatestOf(file: File, k: Key, now: nat, capacity: nat): seq<Message> {
    var cache := Loaded(file, now);
    var key := Normalized(k);
    if capacity == 0 || key.None? || cache.None? then []
    else
      var i := IndexOf(cache.value, key.value);
      if i == |cache.value| then []
      else
        var messages := cache.value[i].messages;
        messages[if |messages| < capacity then 0 else |messages| - capacity..]
  }

  class CacheFile {
    var file: File

    constructor ()
      ensures file == Missing
    {
      file := Missing;
    }

    method LoadContext(k: Key, now: nat, capacity: nat) returns (messages: seq<Message>)
      ensures messages == LatestOf(file, k, now, capacity)
    {
      hide Loaded, Normalized;
      var key := NormalizeKey(k);
      var cache := LoadCache(file, now);
      if capacity == 0 || key.None? || cache.None? {
        return [];
      }
      var i := FindContext(cache.value, key.value);
      if i == |cache.value| {
        return [];
      }
      var count := if |cache.value[i].messages| < capacity then |cache.value[i].messages|
                   else capacity;
      return cache.value[i].messages[|cache.value[i].messages| - count..];
    }

    method StoreMessage(k: Key, m: Message, now: nat, readable: bool, writes: bool)
      returns (ok: bool)
      modifies this
      ensures (file, ok) == Stored(old(file), readable, k, m, now, writes)
    {
      hide Loaded, Normalized, Sanitized, FileText;
      var key := NormalizeKey(k);
      if m.id == 0 || key.None? || !IsRetained(m.timestamp, now) {
        return false;
      }
      var name := SanitizeText(m.name, NAME_SIZE);
      var text := SanitizeText(m.text, TEXT_SIZE);
      if name == "" || text == "" {
        return false;
      }
      var clean := m.(name := name, text := text);
      var loaded := LoadCache(if readable then file else Unreadable, now);
      var cache := if loaded.None? then [] else loaded.value;
      var known, after := AddMessage(cache, key.value, clean);
      if known {
        return true;
      }
      var contents := SaveCache(after);
      if !writes {
        return false;
      }
      file := Contents(contents);
      return true;
    }
  }

  method OpenContext(cache: Cache, key: Key) returns (after: Cache, i: nat)
    ensures after == WithContext(cache, key) && i == IndexOf(after, key)
    ensures IndexOf(cache, key) == |cache| ==> after[i].messages == []
    ensures IndexOf(cache, key) < |cache| ==> after == cache
  {
    after := cache;
    i := FindContext(after, key);
    if i == |after| {
      assert forall j :: 0 <= j < |cache| ==> cache[j].key != key;
      if |after| == MAX_CONTEXTS {
        after := after[1..];
      }
      i := |after|;
      after := after + [Context(key, [])];
    }
  }

  method AddMessage(cache: Cache, key: Key, m: Message) returns (known: bool, after: Cache)
    ensures known == IsKnown(cache, key, m)
    ensures !known ==> after == WithMessage(cache, key, m)
  {
    hide WithContext, IndexOf, Appended;
    var i;
    after, i := OpenContext(cache, key);
    var messages := after[i].messages;
    for j := 0 to |messages|
      invariant forall x :: 0 <= x < j ==> !AreDuplicates(messages[x], m)
    {
      if AreDuplicates(messages[j], m) {
        assert messages[j] in cache[i].messages;
        return true, cache;
      }
    }
    after := after[i := Context(key, Appended(messages, m))];
    return false, after;
  }
}
