/** The configuration file: how its lines become values, and a value the words handed to the
    ORB. */
module Configuration {
  import opened Prelude

  // ---- text ----

  /** The first place of `c`, or the end. */
  function IndexOf(s: string, c: char): (n: nat)
    ensures n <= |s| && (n < |s| ==> s[n] == c) && forall k :: 0 <= k < n ==> s[k] != c
  {
    if s == [] || s[0] == c then 0 else 1 + IndexOf(s[1..], c)
  }

  /** `find` from a position on. */
  function FindFrom(s: string, c: char, pos: nat): (n: nat)
    requires pos <= |s|
    ensures pos <= n <= |s| && (n < |s| ==> s[n] == c) && forall k :: pos <= k < n ==> s[k] != c
  {
    var n := IndexOf(s[pos..], c);
    assert forall k :: pos <= k < pos + n ==> s[k] == s[pos..][k - pos];
    pos + n
  }

  function Blanked(s: string, c: char): (r: string)
    ensures |r| == |s| && forall k :: 0 <= k < |s| ==> r[k] == if s[k] == c then ' ' else s[k]
  {
    seq(|s|, k requires 0 <= k < |s| => if s[k] == c then ' ' else s[k])
  }

  function RTrim(s: string): (r: string)
    ensures r <= s && (r == [] || r[|r| - 1] != ' ') && forall k :: |r| <= k < |s| ==> s[k] == ' '
  {
    if s == [] || s[|s| - 1] != ' ' then s else RTrim(s[..|s| - 1])
  }

  function NonEmpty(piece: string): seq<string> { if piece == [] then [] else [piece] }

  /** The words between the blanks. */
  function Words(s: string): seq<string>
    decreases |s|
  {
    var n := IndexOf(s, ' ');
    if n == |s| then NonEmpty(s) else NonEmpty(s[..n]) + Words(s[n + 1..])
  }

  ghost predicate FirstAt(s: string, c: char, n: nat) {
    n <= |s| && (n < |s| ==> s[n] == c) && forall k :: 0 <= k < n ==> s[k] != c
  }

  /** The first piece ends at the first blank, and the words of the rest follow. */
  lemma {:induction false} FirstPiece(s: string, n: nat)
    requires FirstAt(s, ' ', n)
    ensures Words(s) == if n == |s| then NonEmpty(s) else NonEmpty(s[..n]) + Words(s[n + 1..])
  {
    assert IndexOf(s, ' ') == n;
  }

  lemma {:induction false} JoinedPiece(a: string, b: string, n: nat)
    requires FirstAt(a, ' ', n)
    ensures Words(a + " " + b) == NonEmpty(a[..n]) + Words(if n == |a| then b else a[n + 1..] + " " + b)
  {
    var s := a + " " + b;
    assert s[n] == ' ' && s[..n] == a[..n] && s[n + 1..] == if n == |a| then b else a[n + 1..] + " " + b;
    FirstPiece(s, n);
  }

  /** Splitting after joining is joining after splitting. */
  lemma {:induction false} WordsJoin(a: string, b: string)
    ensures Words(a + " " + b) == Words(a) + Words(b)
    decreases |a|
  {
    var n := IndexOf(a, ' ');
    JoinedPiece(a, b, n);
    FirstPiece(a, n);
    if n < |a| {
      WordsJoin(a[n + 1..], b);
      Associate(NonEmpty(a[..n]), Words(a[n + 1..]), Words(b));
    } else {
      assert a[..n] == a;
    }
  }

  lemma Associate(a: seq<string>, b: seq<string>, c: seq<string>)
    ensures a + (b + c) == a + b + c
  {
  }

  lemma {:induction false} SomeWord(s: string, k: nat)
    requires k < |s| && s[k] != ' '
    ensures Words(s) != []
    decreases |s|
  {
    var n := IndexOf(s, ' ');
    if n < k { SomeWord(s[n + 1..], k - n - 1); }
  }

  /** The words from a position on. */
  function WordsFrom(s: string, pos: nat): seq<string>
    requires pos <= |s|
  {
    Words(s[pos..])
  }

  /** The splitting loop of the options. */
  method Split(opts: string) returns (words: seq<string>)
    ensures words == Words(opts)
  {
    words := [];
    var pos, end := 0, 0;
    assert opts[0..] == opts;
    ghost var all := WordsFrom(opts, 0);
    while true
      invariant pos <= |opts| && all == words + WordsFrom(opts, pos)
      decreases |opts| - pos
    {
      end := FindFrom(opts, ' ', pos);
      var piece := opts[pos..end];
      NextPiece(opts, pos, end, piece, words);
      if piece != [] { words := words + [piece]; }
      if end == |opts| { break; }
      pos := end + 1;
    }
  }

  lemma NextPiece(opts: string, pos: nat, end: nat, piece: string, words: seq<string>)
    requires pos <= |opts| && end == FindFrom(opts, ' ', pos) && piece == opts[pos..end]
    ensures words + WordsFrom(opts, pos)
         == (if piece == [] then words else words + [piece]) + if end == |opts| then [] else WordsFrom(opts, end + 1)
  {
    var s, n := opts[pos..], end - pos;
    assert s[..n] == piece;
    if end == |opts| {
      assert s == piece;
    } else {
      assert s[n + 1..] == opts[end + 1..];
    }
  }

  // ---- lines ----

  datatype Setting = Setting(token: string, value: string)

  /** What a line sets, if anything. */
  function Parse(line: string): Option<Setting> {
    if line == [] || line[0] == '#' then None else
    SettingIn(RTrim(Clear(line)))
  }

  /** The token up to the first blank, and what follows that blank. */
  function SettingIn(text: string): Option<Setting> {
    var pos := IndexOf(text, ' ');
    if pos == |text| || pos + 2 > |text| then None else Some(Setting(text[..pos], text[pos + 1..]))
  }

  /** The line sets `token` to `value`: they stand at its start with one blank in between and
      none in the token, before any comment, where CR and TAB count as blanks; the value ends
      in no blank, and nothing but blanks comes between it and the comment or the end. */
  ghost predicate Sets(line: string, token: string, value: string) {
    var text := token + " " + value;
    && value != "" && value[|value| - 1] != ' ' && ' ' !in token && |text| <= |line|
    && (forall k :: 0 <= k < |text| ==> line[k] != '#' && text[k] == Cleared(line[k]))
    && exists end :: BlankUpTo(line, |text|, end)
  }

  /** Blanks only, and then the comment or the end of the line. */
  ghost predicate BlankUpTo(line: string, from: nat, end: nat) {
    && from <= end <= |line| && (end < |line| ==> line[end] == '#')
    && forall k :: from <= k < end ==> line[k] == ' ' || line[k] == '\r' || line[k] == '\t'
  }

  function Cleared(c: char): char {
    if c == '\r' || c == '\t' then ' ' else c
  }

  /** What a line is read as, and nothing else, is what it sets. */
  lemma ParseExact(line: string, token: string, value: string)
    ensures Parse(line) == Some(Setting(token, value)) <==> Sets(line, token, value)
  {
    if Sets(line, token, value) {
      SetsIsText(line, token, value);
      TextParses(token, value);
    } else if Parse(line) == Some(Setting(token, value)) {
      ParsedIsSet(line, token, value);
    }
  }

  /** The part of a line before any comment, with blanks for CR and TAB. */
  function Clear(line: string): (clear: string)
    ensures |clear| == IndexOf(line, '#') && forall k :: 0 <= k < |clear| ==> clear[k] == Cleared(line[k])
  {
    Blanked(Blanked(line[..IndexOf(line, '#')], '\r'), '\t')
  }

  lemma ParsedIsSet(line: string, token: string, value: string)
    requires Parse(line) == Some(Setting(token, value))
    ensures Sets(line, token, value)
  {
    var clear := Clear(line);
    ParsedText(RTrim(clear), token, value);
    BlankTail(line, |RTrim(clear)|);
    assert forall k :: 0 <= k < |RTrim(clear)| ==> RTrim(clear)[k] == clear[k];
  }

  lemma ParsedText(text: string, token: string, value: string)
    requires SettingIn(text) == Some(Setting(token, value)) && (text == [] || text[|text| - 1] != ' ')
    ensures text == token + " " + value && ' ' !in token && value != "" && value[|value| - 1] != ' '
  {
    var pos := IndexOf(text, ' ');
    assert text == text[..pos] + [text[pos]] + text[pos + 1..];
  }

  lemma BlankTail(line: string, from: nat)
    requires from <= |Clear(line)| && forall k :: from <= k < |Clear(line)| ==> Clear(line)[k] == ' '
    ensures BlankUpTo(line, from, |Clear(line)|)
  {
    forall k | from <= k < |Clear(line)| ensures line[k] == ' ' || line[k] == '\r' || line[k] == '\t' {
      assert Clear(line)[k] == Cleared(line[k]);
    }
  }

  lemma SetsIsText(line: string, token: string, value: string)
    requires Sets(line, token, value)
    ensures line != "" && line[0] != '#' && RTrim(Clear(line)) == token + " " + value
  {
    var text, end, clear := token + " " + value, IndexOf(line, '#'), Clear(line);
    var e :| BlankUpTo(line, |text|, e);
    assert e == end;
    assert clear[..|text|] == text;
    assert text[|text| - 1] == value[|value| - 1];
    TrimsTo(clear, text);
  }

  lemma {:induction false} TrimsTo(s: string, text: string)
    requires text <= s && text != "" && text[|text| - 1] != ' '
    requires forall k :: |text| <= k < |s| ==> s[k] == ' '
    ensures RTrim(s) == text
  {
    var r := RTrim(s);
    assert s[|text| - 1] == text[|text| - 1];
    assert r != [] ==> r[|r| - 1] == s[|r| - 1];
  }

  lemma TextParses(token: string, value: string)
    requires ' ' !in token && value != ""
    ensures SettingIn(token + " " + value) == Some(Setting(token, value))
  {
    var text := token + " " + value;
    assert text[|token|] == ' ' && forall k :: 0 <= k < |token| ==> text[k] == token[k];
    assert text[..|token|] == token && text[|token| + 1..] == value;
  }

  /** A piece without blanks is one word, itself; an empty one is none. */
  lemma {:induction false} WordsOfPiece(piece: string)
    requires ' ' !in piece
    ensures Words(piece) == if piece == "" then [] else [piece]
  {
  }

  /** `find` and overwrite, until there is none left. */
  method Blank(s: string, c: char) returns (r: string)
    requires c != ' '
    ensures r == Blanked(s, c)
  {
    r := s;
    var pos := 0;
    while true
      invariant pos <= |r| == |s| && forall k :: 0 <= k < |s| ==> r[k] == if k < pos && s[k] == c then ' ' else s[k]
      decreases |s| - pos
    {
      var n := FindFrom(r, c, pos);
      if n == |r| { return; }
      r, pos := r[n := ' '], n + 1;
    }
  }

  method Clean(line: string) returns (s: Option<Setting>)
    ensures s == Parse(line)
  {
    if line == [] || line[0] == '#' { return None; }
    var text := line[..IndexOf(line, '#')];
    text := Blank(text, '\r');
    text := Blank(text, '\t');
    text := RTrim(text);
    var pos := IndexOf(text, ' ');
    if pos == |text| || pos + 2 > |text| { return None; }
    return Some(Setting(text[..pos], text[pos + 1..]));
  }

  type Configs = map<int, string>

  function Value(configs: Configs, key: int): string {
    if key in configs then configs[key] else ""
  }

  /** A value given again is added after a blank. */
  function Accrue(configs: Configs, key: int, value: string): Configs {
    configs[key := if Value(configs, key) == "" then value else Value(configs, key) + " " + value]
  }

  function Load(lines: seq<string>, hash: string -> int): Configs {
    if lines == [] then map[] else
    var before := Load(lines[..|lines| - 1], hash);
    var s := Parse(lines[|lines| - 1]);
    if s.None? then before else Accrue(before, hash(s.value.token), s.value.value)
  }

  method LoadFile(lines: seq<string>, hash: string -> int) returns (configs: Configs)
    ensures configs == Load(lines, hash)
  {
    configs := map[];
    for i := 0 to |lines|
      invariant configs == Load(lines[..i], hash)
    {
      assert lines[..i + 1][..i] == lines[..i];
      var s := Clean(lines[i]);
      if s.None? { continue; }
      var key := hash(s.value.token);
      var accrued := Value(configs, key);
      configs := configs[key := if accrued == "" then s.value.value else accrued + " " + s.value.value];
    }
    assert lines[..|lines|] == lines;
  }

  // ---- from lines to words ----

  /** The words of the lines that set a token, in file order. */
  function OwnWords(lines: seq<string>, token: string): seq<string> {
    if lines == [] then [] else
    var s := Parse(lines[|lines| - 1]);
    OwnWords(lines[..|lines| - 1], token)
    + if s.Some? && s.value.token == token then Words(s.value.value) else []
  }

  /** Some line sets another token that hashes to the same key. */
  predicate Collides(lines: seq<string>, token: string, hash: string -> int) {
    lines != [] && (Collides(lines[..|lines| - 1], token, hash) ||
      var s := Parse(lines[|lines| - 1]); s.Some? && s.value.token != token && hash(s.value.token) == hash(token))
  }

  lemma SettingHasWord(line: string)
    requires Parse(line).Some?
    ensures Parse(line).value.value != "" && Words(Parse(line).value.value) != []
  {
    var value := Parse(line).value.value;
    SomeWord(value, |value| - 1);
  }

  lemma {:induction false} ValueWords(lines: seq<string>, token: string, hash: string -> int)
    ensures var words := Words(Value(Load(lines, hash), hash(token))); var own := OwnWords(lines, token);
      if Collides(lines, token, hash) then |words| > |own| else words == own
  {
    if lines != [] {
      var before := lines[..|lines| - 1];
      ValueWords(before, token, hash);
      var s := Parse(lines[|lines| - 1]);
      if s.Some? && hash(s.value.token) == hash(token) {
        SettingHasWord(lines[|lines| - 1]);
        WordsJoin(Value(Load(before, hash), hash(token)), s.value.value);
      }
    }
  }

  /** The words made of a token's value are the words of its own lines, in file order, exactly
      when no line sets another token with the same hash. */
  lemma {:induction false} WordsExact(lines: seq<string>, token: string, hash: string -> int)
    ensures Words(Value(Load(lines, hash), hash(token))) == OwnWords(lines, token) <==> !Collides(lines, token, hash)
  {
    ValueWords(lines, token, hash);
  }
}
