// The JSON configuration file: the printer, the search for a key in the text and the
// restoring of every field (pi-pico/jsonconf.cpp:101-143, 145-157, 159-237, 240-304, 318-327).
module JsonConf {
  import opened Numerals

  const NULL: int := -1
  const VALUE_SIZE: nat := 32
  const WRITE_SIZE: nat := 128

  // ---------- Searching the text ----------

  // A character of a C string, closed by a zero.
  function At(doc: string, i: nat): char {
    if i < |doc| then doc[i] else '\0'
  }

  predicate Occurs(doc: string, key: string, p: int) {
    0 <= p && p + |key| <= |doc| && doc[p..p + |key|] == key
  }

  // strstr
  function Find(doc: string, key: string, from: nat): (r: int)
    ensures r == NULL ==> forall p | from <= p :: !Occurs(doc, key, p)
    ensures r != NULL ==> from <= r && Occurs(doc, key, r) && forall p | from <= p < r :: !Occurs(doc, key, p)
    decreases |doc| - from
  {
    if from + |key| > |doc| then NULL
    else if doc[from..from + |key|] == key then from
    else Find(doc, key, from + 1)
  }

  // strchr
  function FindChar(doc: string, c: char, from: nat): (r: int)
    ensures r == NULL ==> forall p | from <= p < |doc| :: doc[p] != c
    ensures r != NULL ==> from <= r < |doc| && doc[r] == c && forall p | from <= p < r :: doc[p] != c
    decreases |doc| - from
  {
    if from >= |doc| then NULL
    else if doc[from] == c then from
    else FindChar(doc, c, from + 1)
  }

  function SkipSpaces(doc: string, from: nat): (r: nat)
    requires from <= |doc|
    ensures from <= r <= |doc| && At(doc, r) != ' '
    ensures forall p | from <= p < r :: doc[p] == ' '
    decreases |doc| - from
  {
    if At(doc, from) == ' ' then SkipSpaces(doc, from + 1) else from
  }

  // The key at p stands between double quotes.
  predicate Quoted(doc: string, key: string, p: int) {
    p > 0 && Occurs(doc, key, p) && doc[p - 1] == '"' && At(doc, p + |key|) == '"'
  }

  // Where the colon is expected.
  function ColonAt(doc: string, key: string, p: int): nat
    requires Quoted(doc, key, p)
  {
    SkipSpaces(doc, p + |key| + 1)
  }

  // The quoted key at p names a member.
  predicate KeyAt(doc: string, key: string, p: int) {
    Quoted(doc, key, p) && At(doc, ColonAt(doc, key, p)) == ':'
  }

  function ValueAt(doc: string, key: string, p: int): nat
    requires KeyAt(doc, key, p)
  {
    SkipSpaces(doc, ColonAt(doc, key, p) + 1)
  }

  // Where the search stands after it has looked at the occurrence p.
  function Behind(doc: string, key: string, p: nat): (r: nat)
    requires Occurs(doc, key, p)
    ensures p <= r <= |doc|
  {
    if !Quoted(doc, key, p) then p
    else if KeyAt(doc, key, p) then ValueAt(doc, key, p)
    else ColonAt(doc, key, p)
  }

  // The search from pos on, holding val.
  function Scan(doc: string, key: string, pos: nat, val: int): (r: int)
    requires pos <= |doc|
    ensures r == val || 0 <= r <= |doc|
    decreases |doc| - pos
  {
    var p := Find(doc, key, pos + 1);
    if p == NULL then val
    else Scan(doc, key, Behind(doc, key, p), if KeyAt(doc, key, p) then ValueAt(doc, key, p) else val)
  }

  lemma {:induction false} ScanNone(doc: string, key: string, pos: nat, val: int)
    requires pos <= |doc|
    requires forall p | p > pos :: !KeyAt(doc, key, p)
    ensures Scan(doc, key, pos, val) == val
    decreases |doc| - pos
  {
    var p := Find(doc, key, pos + 1);
    if p != NULL {
      ScanNone(doc, key, Behind(doc, key, p), val);
    }
  }

  // A key made of plain letters cannot be stepped over, unless its opening quote also
  // closes another occurrence.
  lemma {:induction false} ScanOne(doc: string, key: string, pos: nat, val: int, p0: nat)
    requires GoodName(key)
    requires pos < p0 && KeyAt(doc, key, p0) && Separate(doc, key, p0)
    requires forall p | p > pos :: KeyAt(doc, key, p) ==> p == p0
    ensures Scan(doc, key, pos, val) == ValueAt(doc, key, p0)
    decreases |doc| - pos
  {
    var p := Find(doc, key, pos + 1);
    if p == p0 {
      ScanNone(doc, key, Behind(doc, key, p0), ValueAt(doc, key, p0));
    } else {
      if Quoted(doc, key, p) {
        PassesNoQuote(doc, key, p, p0);
      }
      ScanOne(doc, key, Behind(doc, key, p), val, p0);
    }
  }

  // The opening quote at p0 does not close another quoted occurrence.
  predicate Separate(doc: string, key: string, p0: nat) {
    p0 > |key| ==> !Quoted(doc, key, p0 - 1 - |key|)
  }

  lemma PassesNoQuote(doc: string, key: string, p: nat, p0: nat)
    requires GoodName(key) && p < p0 && Separate(doc, key, p0)
    requires Quoted(doc, key, p) && !KeyAt(doc, key, p) && Quoted(doc, key, p0)
    ensures Behind(doc, key, p) < p0
  {
    NameChars(doc, key, p);
    assert doc[p0 - 1] == '"';
    assert p0 - 1 > p + |key|;
  }

  lemma NameChars(doc: string, key: string, p: int)
    requires GoodName(key) && Occurs(doc, key, p)
    ensures forall i | p <= i < p + |key| :: GoodChar(doc[i])
  {
    forall i | p <= i < p + |key| ensures GoodChar(doc[i]) {
      assert doc[i] == doc[p..p + |key|][i - p];
    }
  }

  // The characters of the field names.
  predicate GoodChar(c: char) {
    'a' <= c <= 'z' || '0' <= c <= '9' || c == '_'
  }

  predicate GoodName(s: string) {
    0 < |s| <= 20 && forall i | 0 <= i < |s| :: GoodChar(s[i])
  }

  datatype Answer = Found(text: string) | Missing | Corrupt | TooBig

  // One round of the loop over the end characters; an absent character is a null pointer,
  // which is below every other.
  function Earlier(end: int, tmp: int): int {
    if end == NULL || tmp < end then tmp else end
  }

  // The end of a value without quotes, by the first n of the three end characters.
  function BareEnd(doc: string, start: nat, n: nat): (r: int)
    requires n <= 3
    ensures r == NULL || start <= r < |doc|
  {
    if n == 0 then NULL else Earlier(BareEnd(doc, start, n - 1), FindChar(doc, ",\r\n"[n - 1], start))
  }

  // The value that starts at val.
  function Extract(doc: string, val: nat): Answer {
    var start := if At(doc, val) == '"' then val + 1 else val;
    var end :=
      if At(doc, val) == '"' then FindChar(doc, '"', start)
      else BareEnd(doc, start, 3);
    if end == NULL then Corrupt
    else if end - start >= VALUE_SIZE then TooBig
    else Found(doc[start..end])
  }

  // The answers to a quoted value: what stands between the quotes if it is shorter than 32
  // characters, too big if it is not, corrupt without a closing quote.
  lemma QuotedAnswer(doc: string, val: nat, n: nat)
    requires val < |doc| && doc[val] == '"' && val + 1 + n <= |doc|
    requires forall i | val + 1 <= i < val + 1 + n :: doc[i] != '"'
    ensures val + 1 + n == |doc| ==> Extract(doc, val) == Corrupt
    ensures val + 1 + n < |doc| && doc[val + 1 + n] == '"' ==>
              Extract(doc, val) == if n < 32 then Found(doc[val + 1..val + 1 + n]) else TooBig
  {}

  // And to a bare one, n being the next line feed: it ends at the first comma, carriage return or
  // line feed if a carriage return follows anywhere, otherwise not before the line feed.
  lemma BareAnswer(doc: string, val: nat, end: nat, n: nat)
    requires val <= end <= n < |doc| && doc[val] != '"' && doc[n] == '\n' && forall i | val <= i < n :: doc[i] != '\n'
    requires if exists i | val <= i < |doc| :: doc[i] == '\r' then
               (doc[end] == ',' || doc[end] == '\r' || doc[end] == '\n')
               && forall i | val <= i < end :: doc[i] != ',' && doc[i] != '\r'
             else end == n
    ensures Extract(doc, val) == if end - val < 32 then Found(doc[val..end]) else TooBig
  {
    var e0, e1, e2 := FindChar(doc, ',', val), FindChar(doc, '\r', val), FindChar(doc, '\n', val);
    assert e2 == n;
    assert BareEnd(doc, val, 1) == e0;
    assert BareEnd(doc, val, 2) == Earlier(e0, e1);
    assert BareEnd(doc, val, 3) == Earlier(Earlier(e0, e1), e2) == end;
  }

  lemma NoLineFeed(doc: string, val: nat)
    requires val < |doc| && doc[val] != '"' && forall i | val <= i < |doc| :: doc[i] != '\n'
    ensures Extract(doc, val) == Corrupt
  {
    var e0, e1, e2 := FindChar(doc, ',', val), FindChar(doc, '\r', val), FindChar(doc, '\n', val);
    assert BareEnd(doc, val, 1) == e0;
    assert BareEnd(doc, val, 2) == Earlier(e0, e1);
    assert BareEnd(doc, val, 3) == Earlier(Earlier(e0, e1), e2) == NULL;
  }

  // So in a file with line feeds alone a comma belongs to the value in front of it.
  lemma CommaTaken()
    ensures Extract("true,\n}\n", 0) == Found("true,")
  {
    BareAnswer("true,\n}\n", 0, 5, 5);
  }

  // json_get
  function Lookup(doc: string, key: string): Answer {
    var val := Scan(doc, key, 0, NULL);
    if val == NULL then Missing else Extract(doc, val)
  }

  // while (*pos == ' ') pos++;
  method Spaces(doc: string, from: nat) returns (pos: nat)
    requires from <= |doc|
    ensures pos == SkipSpaces(doc, from)
  {
    pos := from;
    while At(doc, pos) == ' '
      invariant from <= pos <= |doc| && SkipSpaces(doc, pos) == SkipSpaces(doc, from)
      decreases |doc| - pos
    {
      pos := pos + 1;
    }
  }

  // The body of the first loop of json_get, at an occurrence of the key.
  method Visit(doc: string, key: string, next: nat, held: int) returns (pos: nat, val: int)
    requires next > 0 && Occurs(doc, key, next)
    ensures pos == Behind(doc, key, next)
    ensures val == if KeyAt(doc, key, next) then ValueAt(doc, key, next) else held
  {
    pos, val := next, held;
    if doc[pos - 1] == '"' && At(doc, pos + |key|) == '"' {
      pos := pos + |key| + 1;
      pos := Spaces(doc, pos);
      if At(doc, pos) == ':' {
        pos := pos + 1;
        pos := Spaces(doc, pos);
        val := pos;
      }
    }
  }

  // The first loop of json_get.
  method Search(doc: string, key: string) returns (val: int)
    ensures val == Scan(doc, key, 0, NULL)
  {
    var pos: nat := 0;
    val := NULL;
    var next := Find(doc, key, pos + 1);
    while next != NULL
      invariant pos <= |doc|
      invariant next == Find(doc, key, pos + 1)
      invariant Scan(doc, key, pos, val) == Scan(doc, key, 0, NULL)
      decreases |doc| - pos
    {
      pos, val := Visit(doc, key, next, val);
      next := Find(doc, key, pos + 1);
    }
  }

  // json_get
  method JsonGet(doc: string, key: string) returns (r: Answer)
    ensures r == Lookup(doc, key)
  {
    var val := Search(doc, key);
    if val == NULL {
      return Missing;
    }
    var end: int := NULL;
    if At(doc, val) == '"' {
      val := val + 1;
      end := FindChar(doc, '"', val);
    } else {
      var ends := ",\r\n";
      for j := 0 to 3
        invariant end == BareEnd(doc, val, j)
      {
        var tmp := FindChar(doc, ends[j], val);
        if end == NULL || tmp < end {
          end := tmp;
        }
      }
    }
    if end == NULL {
      return Corrupt;
    }
    if end - val >= VALUE_SIZE {
      return TooBig;
    }
    return Found(doc[val..end]);
  }

}
