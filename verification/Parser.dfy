/** Request lines: tokens, the request struct, and the grammar that is accepted. */
module Parser {
  import opened Text
  import opened Stock

  const MAX_TOKENS: nat := 4

  // ---------- tokens ----------

  predicate Delim(c: char) { c == ' ' || c == '\t' || c == '\r' || c == '\n' }

  function TokenLength(s: string): (k: nat)
    ensures k <= |s|
    ensures forall i :: 0 <= i < k ==> !Delim(s[i])
    ensures k < |s| ==> Delim(s[k])
  {
    if s == "" || Delim(s[0]) then 0 else 1 + TokenLength(s[1..])
  }

  function Tokens(s: string): (ts: seq<string>)
    decreases |s|
  {
    if s == "" then []
    else if Delim(s[0]) then Tokens(s[1..])
    else [s[..TokenLength(s)]] + Tokens(s[TokenLength(s)..])
  }

  predicate Word(w: string) { w != "" && forall i :: 0 <= i < |w| ==> !Delim(w[i]) }

  predicate Gap(g: string) { forall i :: 0 <= i < |g| ==> Delim(g[i]) }

  /** Gaps around and between the words; those between two words are not empty. */
  predicate Gaps(words: seq<string>, gaps: seq<string>) {
    && |gaps| == |words| + 1
    && (forall i :: 0 <= i < |gaps| ==> Gap(gaps[i]))
    && (forall i :: 0 < i < |words| ==> gaps[i] != "")
  }

  predicate Words(words: seq<string>) { forall i :: 0 <= i < |words| ==> Word(words[i]) }

  /** The line made of the words with the gaps around them. */
  function Lay(words: seq<string>, gaps: seq<string>): string
    requires |gaps| == |words| + 1
  {
    if words == [] then gaps[0] else gaps[0] + words[0] + Lay(words[1..], gaps[1..])
  }

  lemma {:induction false} SkipGap(g: string, s: string)
    requires Gap(g)
    ensures Tokens(g + s) == Tokens(s)
  {
    if g == "" {
      assert g + s == s;
    } else {
      assert (g + s)[1..] == g[1..] + s;
      SkipGap(g[1..], s);
    }
  }

  lemma {:induction false} LengthOfWord(w: string, s: string)
    requires Word(w) && (s == "" || Delim(s[0]))
    ensures TokenLength(w + s) == |w|
  {
    if |w| == 1 {
      assert (w + s)[1..] == s;
    } else {
      assert (w + s)[1..] == w[1..] + s;
      LengthOfWord(w[1..], s);
    }
  }

  lemma FirstWord(w: string, s: string)
    requires Word(w) && (s == "" || Delim(s[0]))
    ensures Tokens(w + s) == [w] + Tokens(s)
  {
    LengthOfWord(w, s);
    assert (w + s)[..|w|] == w && (w + s)[|w|..] == s;
  }

  lemma LayBegins(words: seq<string>, gaps: seq<string>)
    requires |gaps| == |words| + 1 && Gap(gaps[0]) && (words != [] ==> gaps[0] != "")
    ensures Lay(words, gaps) == "" || Delim(Lay(words, gaps)[0])
  {
  }

  /** The tokens of a line are the words it was made of. */
  lemma {:induction false} TokensOfLay(words: seq<string>, gaps: seq<string>)
    requires Gaps(words, gaps) && Words(words)
    ensures Tokens(Lay(words, gaps)) == words
  {
    if words == [] {
      SkipGap(gaps[0], "");
      assert gaps[0] + "" == gaps[0];
    } else {
      var rest := Lay(words[1..], gaps[1..]);
      assert Lay(words, gaps) == gaps[0] + (words[0] + rest);
      SkipGap(gaps[0], words[0] + rest);
      LayBegins(words[1..], gaps[1..]);
      assert |words| > 1 ==> gaps[1] != "";
      FirstWord(words[0], rest);
      TokensOfLay(words[1..], gaps[1..]);
    }
  }

  lemma LayNothing()
    ensures Words([]) && Gaps([], [""]) && Lay([], [""]) == ""
  {
  }

  lemma LayOneMore(w: string, s: string, words: seq<string>, gaps: seq<string>)
    requires Word(w) && Words(words) && Gaps(words, gaps) && Lay(words, gaps) == s
    requires words == [] || gaps[0] != ""
    ensures Words([w] + words) && Gaps([w] + words, [""] + gaps)
    ensures Lay([w] + words, [""] + gaps) == w + s
  {
    assert Gap("");
    hide Word, Gap;
    assert ([w] + words)[1..] == words && ([""] + gaps)[1..] == gaps;
  }

  lemma LayMoreGap(g: string, words: seq<string>, gaps: seq<string>)
    requires |gaps| == |words| + 1
    ensures Lay(words, [g + gaps[0]] + gaps[1..]) == g + Lay(words, gaps)
    ensures Gaps(words, gaps) && Gap(g) ==> Gaps(words, [g + gaps[0]] + gaps[1..])
  {
    assert ([g + gaps[0]] + gaps[1..])[1..] == gaps[1..];
    if words != [] {
      var rest := Lay(words[1..], gaps[1..]);
      assert g + (gaps[0] + words[0] + rest) == g + gaps[0] + words[0] + rest;
    }
  }

  /** Every line is its tokens with gaps around them. */
  lemma {:induction false} LayOfTokens(s: string) returns (gaps: seq<string>)
    ensures Words(Tokens(s)) && Gaps(Tokens(s), gaps) && Lay(Tokens(s), gaps) == s
    ensures |gaps| == |Tokens(s)| + 1
    ensures s != "" && Delim(s[0]) ==> gaps[0] != ""
    decreases |s|
  {
    LayNothing();
    hide Words, Gaps, Lay;
    if s == "" {
      gaps := [""];
    } else if Delim(s[0]) {
      var more := LayOfTokens(s[1..]);
      gaps := [[s[0]] + more[0]] + more[1..];
      LayMoreGap([s[0]], Tokens(s), more);
    } else {
      var k := TokenLength(s);
      var more := LayOfTokens(s[k..]);
      gaps := [""] + more;
      assert Tokens(s) == [s[..k]] + Tokens(s[k..]);
      assert k < |s| ==> s[k..][0] == s[k];
      LayOneMore(s[..k], s[k..], Tokens(s[k..]), more);
      assert s == s[..k] + s[k..];
    }
  }

  // ---------- the grammar ----------

  /** parse_int_token: the whole token is one numeral in the range of int. */
  function ParseInt(token: string): Option<int> {
    match ScanInt(token)
    case Some((v, rest)) => if rest == "" && InInt(v) then Some(v) else None
    case None => None
  }

  predicate IdAndCount(words: seq<string>, id: int, count: int)
    requires |words| == 3
  {
    ParseInt(words[1]) == Some(id) && ParseInt(words[2]) == Some(count) && count > 0
  }

  /** show | show int | buy int posint | sell int posint | exit. */
  predicate Spells(words: seq<string>, r: Request) {
    match r
    case ShowAll => words == ["show"]
    case ShowOne(id) => |words| == 2 && words[0] == "show" && ParseInt(words[1]) == Some(id)
    case Buy(id, count) => |words| == 3 && words[0] == "buy" && IdAndCount(words, id, count)
    case Sell(id, count) => |words| == 3 && words[0] == "sell" && IdAndCount(words, id, count)
    case Exit => words == ["exit"]
  }

  // ---------- the request struct ----------

  datatype Command = Unknown | CmdShow | CmdBuy | CmdSell | CmdExit

  datatype StockRequest = StockRequest(command: Command, argc: nat, id: int, count: int, parseError: bool)

  /** validate_request. */
  function ValidateRequest(q: StockRequest): Status {
    if q.parseError then Invalid else
      match q.command
      case CmdShow => if q.argc == 1 || q.argc == 2 then Ok else Invalid
      case CmdBuy => if q.argc == 3 && q.count > 0 then Ok else Invalid
      case CmdSell => if q.argc == 3 && q.count > 0 then Ok else Invalid
      case CmdExit => if q.argc == 1 then Ok else Invalid
      case Unknown => Invalid
  }

  /** The request that a valid struct stands for. */
  function Wanted(q: StockRequest): Request
    requires ValidateRequest(q) == Ok
  {
    match q.command
    case CmdShow => if q.argc == 1 then ShowAll else ShowOne(q.id)
    case CmdBuy => Buy(q.id, q.count)
    case CmdSell => Sell(q.id, q.count)
    case CmdExit => Exit
  }

  /** The part of the line that is parsed: as a C string, cut to the local copy's size. */
  function LocalCopy(line: string): string {
    var s := CStr(line);
    if |s| > MAXLINE - 1 then s[..MAXLINE - 1] else s
  }

  lemma NoTokens()
    ensures Tokens("") == []
  {
  }

  lemma DelimAhead(s: string, i: nat)
    requires i < |s| && Delim(s[i])
    ensures Tokens(s[i..]) == Tokens(s[i + 1..])
  {
    assert s[i..][1..] == s[i + 1..];
  }

  /** strtok_r with the delimiters above: the next token from `at` on, and where to go on. */
  method NextToken(s: string, at: nat) returns (token: Option<string>, next: nat)
    requires at <= |s|
    ensures at <= next <= |s|
    ensures token == None ==> Tokens(s[at..]) == []
    ensures token.Some? ==> Tokens(s[at..]) == [token.value] + Tokens(s[next..])
    ensures token.Some? ==> at < next && Word(token.value)
  {
    hide Tokens;
    var i := at;
    while i < |s| && Delim(s[i])
      invariant at <= i <= |s| && Tokens(s[i..]) == Tokens(s[at..])
    {
      DelimAhead(s, i);
      i := i + 1;
    }
    NoTokens();
    if i == |s| {
      assert s[i..] == "";
      return None, i;
    }
    var j := i;
    while j < |s| && !Delim(s[j])
      invariant i <= j <= |s| && forall k :: i <= k < j ==> !Delim(s[k])
    {
      j := j + 1;
    }
    assert s[i..] == s[i..j] + s[j..];
    FirstWord(s[i..j], s[j..]);
    return Some(s[i..j]), j;
  }

  /** The token loop of parse_request: it gives up at a fifth token. */
  method SplitTokens(local: string) returns (tokens: seq<string>, tooMany: bool)
    ensures tooMany <==> |Tokens(local)| > MAX_TOKENS
    ensures !tooMany ==> tokens == Tokens(local)
  {
    hide Tokens, Word;
    tokens, tooMany := [], false;
    assert local[0..] == local;
    var token, at := NextToken(local, 0);
    ghost var left := Tokens(local);
    while token.Some?
      invariant at <= |local| && |tokens| <= MAX_TOKENS && Tokens(local) == tokens + left
      invariant left == match token case Some(t) => [t] + Tokens(local[at..]) case None => []
      decreases |local| - at, token.Some?
    {
      if |tokens| == MAX_TOKENS {
        return tokens, true;
      }
      tokens := tokens + [token.value];
      left := Tokens(local[at..]);
      token, at := NextToken(local, at);
    }
  }

  /** What a request struct says of the words it was filled from: the request it asks for is the one
      the grammar gives them, and it is refused exactly when the grammar gives them none. */
  ghost predicate Decides(q: StockRequest, words: seq<string>) {
    if ValidateRequest(q) == Ok then Spells(words, Wanted(q)) && Wanted(q).Valid()
    else ValidateRequest(q) == Invalid && forall r :: !Spells(words, r)
  }

  function CommandOf(token: string): (c: Command)
    ensures c == CmdShow <==> token == "show"
    ensures c == CmdBuy <==> token == "buy"
    ensures c == CmdSell <==> token == "sell"
    ensures c == CmdExit <==> token == "exit"
  {
    if token == "show" then CmdShow
    else if token == "buy" then CmdBuy
    else if token == "sell" then CmdSell
    else if token == "exit" then CmdExit
    else Unknown
  }

  /** parse_request. */
  method ParseRequest(line: string) returns (q: StockRequest)
    ensures Decides(q, Tokens(LocalCopy(line)))
  {
    q := StockRequest(Unknown, 0, 0, 0, false);
    var tokens, tooMany := SplitTokens(LocalCopy(line));
    if tooMany {
      q := q.(parseError := true);
      return;
    }
    q := q.(argc := |tokens|);
    if |tokens| == 0 {
      return;
    }
    q := q.(command := CommandOf(tokens[0]));
    if q.command == Unknown {
      return;
    }
    if |tokens| >= 2 {
      match ParseInt(tokens[1])
      case None =>
        q := q.(parseError := true);
        return;
      case Some(v) => q := q.(id := v);
    }
    if |tokens| >= 3 {
      match ParseInt(tokens[2])
      case None => q := q.(parseError := true);
      case Some(v) => q := q.(count := v);
    }
  }

  // ---------- the grammar, exactly ----------

  /** The words of a printed request. */
  function Spelling(r: Request): seq<string> {
    match r
    case ShowAll => ["show"]
    case ShowOne(id) => ["show", IntText(id)]
    case Buy(id, count) => ["buy", IntText(id), IntText(count)]
    case Sell(id, count) => ["sell", IntText(id), IntText(count)]
    case Exit => ["exit"]
  }

  /** What the server makes of a line. */
  ghost function Understood(line: string): (r: Option<Request>)
    ensures r.Some? ==> Spells(Tokens(LocalCopy(line)), r.value)
    ensures r == None ==> forall q :: !Spells(Tokens(LocalCopy(line)), q)
  {
    var words := Tokens(LocalCopy(line));
    if r :| Spells(words, r) then Some(r) else None
  }

  lemma SpellsOne(words: seq<string>, r: Request, q: Request)
    requires Spells(words, r) && Spells(words, q)
    ensures r == q
  {
  }

  lemma IntWord(n: int)
    requires InInt(n)
    ensures Word(IntText(n)) && ParseInt(IntText(n)) == Some(n)
  {
    IntTextLength(n);
    ScanPrinted("", n, "");
    assert "" + IntText(n) + "" == IntText(n);
  }

  lemma SpellingSpells(r: Request)
    requires r.Valid()
    ensures Spells(Spelling(r), r) && Words(Spelling(r))
  {
    match r
    case ShowOne(id) => IntWord(id);
    case Buy(id, count) => IntWord(id); IntWord(count);
    case Sell(id, count) => IntWord(id); IntWord(count);
    case _ =>
  }

  /** A line within the buffer is understood as r exactly when it is words that spell r, laid out
      with blanks around and between them. */
  lemma GrammarExactly(line: string, r: Request)
    requires '\0' !in line && |line| < MAXLINE
    ensures Understood(line) == Some(r) <==>
      exists words, gaps :: Words(words) && Gaps(words, gaps) && Lay(words, gaps) == line && Spells(words, r)
  {
    if Understood(line) == Some(r) {
      var gaps := LayOfTokens(line);
      var words := Tokens(line);
      assert Words(words) && Gaps(words, gaps) && Lay(words, gaps) == line && Spells(words, r);
    }
    if words, gaps :| Words(words) && Gaps(words, gaps) && Lay(words, gaps) == line && Spells(words, r) {
      TokensOfLay(words, gaps);
      SpellsOne(words, r, Understood(line).value);
    }
  }

  /** Parsing inverts printing, whatever blanks are put around and between the words. */
  lemma ParseInvertsPrint(r: Request, gaps: seq<string>, line: string)
    requires r.Valid() && Gaps(Spelling(r), gaps) && line == Lay(Spelling(r), gaps)
    requires '\0' !in line && |line| < MAXLINE
    ensures Understood(line) == Some(r)
  {
    SpellingSpells(r);
    TokensOfLay(Spelling(r), gaps);
    SpellsOne(Spelling(r), r, Understood(line).value);
  }

  /** The struct that parse_request fills and what the server makes of the line agree. */
  lemma DecidesAgrees(q: StockRequest, line: string)
    requires Decides(q, Tokens(LocalCopy(line)))
    ensures Understood(line) == if ValidateRequest(q) == Ok then Some(Wanted(q)) else None
  {
    if ValidateRequest(q) == Ok { SpellsOne(Tokens(LocalCopy(line)), Wanted(q), Understood(line).value); }
  }

  // ---------- the grammar, written out ----------

  /** The characters that separate words. */
  ghost predicate Separators(g: string) { forall c :: c in g ==> c == ' ' || c == '\t' || c == '\r' || c == '\n' }

  ghost predicate NoSeparator(w: string) {
    w != "" && forall c :: c in w ==> c != ' ' && c != '\t' && c != '\r' && c != '\n'
  }

  lemma SeparatorsAreGaps(s: string)
    ensures Separators(s) <==> Gap(s)
    ensures NoSeparator(s) <==> Word(s)
  {
    if Separators(s) { forall i | 0 <= i < |s| ensures Delim(s[i]) { assert s[i] in s; } }
    if NoSeparator(s) { forall i | 0 <= i < |s| ensures !Delim(s[i]) { assert s[i] in s; } }
  }

  /** Whatever holds no separator is one token. */
  lemma OneToken(w: string)
    requires w != "" && forall c :: c in w ==> c != ' ' && c != '\t' && c != '\r' && c != '\n'
    ensures Tokens(w) == [w]
  {
    SeparatorsAreGaps(w);
    FirstWord(w, "");
    assert w + "" == w;
  }

  /** The tokens that are ints. */
  lemma ParseIntExactly(token: string, v: int)
    ensures ParseInt(token) == Some(v) <==>
      -0x8000_0000 <= v <= 0x7fff_ffff && exists blank, t :: White(blank) && Numeral(t, v) && token == blank + t
  {
    hide White, Numeral;
    if ParseInt(token) == Some(v) {
      var blank, t := ScanIntOnly(token);
      assert token == blank + t;
    }
    if blank, t :| White(blank) && Numeral(t, v) && token == blank + t {
      assert token == blank + t + "";
      ScanIntReads(blank, t, v, "");
    }
  }

  ghost predicate SaysWord(line: string, word: string, a: string, b: string) {
    Separators(a) && Separators(b) && line == a + word + b
  }

  ghost predicate SaysOne(line: string, word: string, id: int, a: string, b: string, t: string, c: string) {
    && Separators(a) && Separators(b) && b != "" && Separators(c)
    && NoSeparator(t) && ParseInt(t) == Some(id)
    && line == a + word + b + t + c
  }

  ghost predicate SaysTwo(line: string, word: string, id: int, count: int,
                          a: string, b: string, t: string, c: string, u: string, d: string) {
    && Separators(a) && Separators(b) && b != "" && Separators(c) && c != "" && Separators(d)
    && NoSeparator(t) && ParseInt(t) == Some(id) && NoSeparator(u) && ParseInt(u) == Some(count) && count > 0
    && line == a + word + b + t + c + u + d
  }

  /** What a line must say to be the request r. */
  ghost predicate LineSays(line: string, r: Request) {
    match r
    case ShowAll => exists a, b :: SaysWord(line, "show", a, b)
    case ShowOne(id) => exists a, b, t, c :: SaysOne(line, "show", id, a, b, t, c)
    case Buy(id, count) => exists a, b, t, c, u, d :: SaysTwo(line, "buy", id, count, a, b, t, c, u, d)
    case Sell(id, count) => exists a, b, t, c, u, d :: SaysTwo(line, "sell", id, count, a, b, t, c, u, d)
    case Exit => exists a, b :: SaysWord(line, "exit", a, b)
  }

  lemma FourWords()
    ensures NoSeparator("show") && NoSeparator("buy") && NoSeparator("sell") && NoSeparator("exit")
  {
  }

  lemma SaidWord(line: string, word: string, a: string, b: string)
    requires SaysWord(line, word, a, b) && NoSeparator(word)
    ensures Tokens(line) == [word]
  {
    var words, gaps := [word], [a, b];
    SeparatorsAreGaps(a);
    SeparatorsAreGaps(b);
    SeparatorsAreGaps(word);
    assert Lay(words[1..], gaps[1..]) == b;
    TokensOfLay(words, gaps);
  }

  lemma SaidOne(line: string, word: string, id: int, a: string, b: string, t: string, c: string)
    requires SaysOne(line, word, id, a, b, t, c) && NoSeparator(word)
    ensures Tokens(line) == [word, t]
  {
    hide Separators, NoSeparator, Gap, Word, Tokens;
    var words, gaps := [word, t], [a, b, c];
    SeparatorsAreGaps(a);
    SeparatorsAreGaps(b);
    SeparatorsAreGaps(c);
    SeparatorsAreGaps(word);
    SeparatorsAreGaps(t);
    assert words[1..] == [t] && gaps[1..] == [b, c] && [t][1..] == [] && [b, c][1..] == [c];
    assert Lay([t], [b, c]) == b + t + c;
    assert line == a + word + (b + t + c);
    TokensOfLay(words, gaps);
  }

  lemma SaidTwo(line: string, word: string, id: int, count: int,
                a: string, b: string, t: string, c: string, u: string, d: string)
    requires SaysTwo(line, word, id, count, a, b, t, c, u, d) && NoSeparator(word)
    ensures Tokens(line) == [word, t, u]
  {
    hide Separators, NoSeparator, Gap, Word, Tokens;
    var words, gaps := [word, t, u], [a, b, c, d];
    SeparatorsAreGaps(a);
    SeparatorsAreGaps(b);
    SeparatorsAreGaps(c);
    SeparatorsAreGaps(d);
    SeparatorsAreGaps(word);
    SeparatorsAreGaps(t);
    SeparatorsAreGaps(u);
    assert words[1..] == [t, u] && gaps[1..] == [b, c, d] && [t, u][1..] == [u] && [b, c, d][1..] == [c, d];
    assert [u][1..] == [] && [c, d][1..] == [d];
    assert Lay([u], [c, d]) == c + u + d;
    assert Lay([t, u], [b, c, d]) == b + t + (c + u + d);
    assert line == a + word + (b + t + (c + u + d));
    TokensOfLay(words, gaps);
  }

  lemma LineSaysSpells(line: string, r: Request)
    requires LineSays(line, r)
    ensures Spells(Tokens(line), r)
  {
    hide Separators, NoSeparator, Tokens, ParseInt;
    FourWords();
    match r
    case ShowAll =>
      var a, b :| SaysWord(line, "show", a, b);
      SaidWord(line, "show", a, b);
    case ShowOne(id) =>
      var a, b, t, c :| SaysOne(line, "show", id, a, b, t, c);
      SaidOne(line, "show", id, a, b, t, c);
    case Buy(id, count) =>
      var a, b, t, c, u, d :| SaysTwo(line, "buy", id, count, a, b, t, c, u, d);
      SaidTwo(line, "buy", id, count, a, b, t, c, u, d);
    case Sell(id, count) =>
      var a, b, t, c, u, d :| SaysTwo(line, "sell", id, count, a, b, t, c, u, d);
      SaidTwo(line, "sell", id, count, a, b, t, c, u, d);
    case Exit =>
      var a, b :| SaysWord(line, "exit", a, b);
      SaidWord(line, "exit", a, b);
  }

  lemma LaidWord(words: seq<string>, gaps: seq<string>)
    requires |words| == 1 && Gaps(words, gaps)
    ensures SaysWord(Lay(words, gaps), words[0], gaps[0], gaps[1])
  {
    SeparatorsAreGaps(gaps[0]);
    SeparatorsAreGaps(gaps[1]);
    assert Lay(words[1..], gaps[1..]) == gaps[1];
  }

  lemma LaidOne(words: seq<string>, gaps: seq<string>, id: int)
    requires |words| == 2 && Gaps(words, gaps) && Words(words) && ParseInt(words[1]) == Some(id)
    ensures SaysOne(Lay(words, gaps), words[0], id, gaps[0], gaps[1], words[1], gaps[2])
  {
    SeparatorsAreGaps(gaps[0]);
    SeparatorsAreGaps(gaps[1]);
    SeparatorsAreGaps(gaps[2]);
    SeparatorsAreGaps(words[1]);
    hide Separators, NoSeparator, Gap, Word, ParseInt;
    assert Lay(words[2..], gaps[2..]) == gaps[2];
    assert words[1..][1..] == words[2..] && gaps[1..][1..] == gaps[2..];
    assert Lay(words[1..], gaps[1..]) == gaps[1] + words[1] + gaps[2];
    assert gaps[0] + words[0] + (gaps[1] + words[1] + gaps[2]) == gaps[0] + words[0] + gaps[1] + words[1] + gaps[2];
  }

  lemma LaidTwo(words: seq<string>, gaps: seq<string>, id: int, count: int)
    requires |words| == 3 && Gaps(words, gaps) && Words(words)
    requires ParseInt(words[1]) == Some(id) && ParseInt(words[2]) == Some(count) && count > 0
    ensures SaysTwo(Lay(words, gaps), words[0], id, count,
                    gaps[0], gaps[1], words[1], gaps[2], words[2], gaps[3])
  {
    SeparatorsAreGaps(gaps[0]);
    SeparatorsAreGaps(gaps[1]);
    SeparatorsAreGaps(gaps[2]);
    SeparatorsAreGaps(gaps[3]);
    SeparatorsAreGaps(words[1]);
    SeparatorsAreGaps(words[2]);
    hide Separators, NoSeparator, Gap, Word, ParseInt;
    var g0, g1, g2, g3, w0, w1, w2 := gaps[0], gaps[1], gaps[2], gaps[3], words[0], words[1], words[2];
    assert words[1..][1..] == words[2..] && gaps[1..][1..] == gaps[2..];
    assert words[2..][1..] == words[3..] && gaps[2..][1..] == gaps[3..];
    assert Lay(words[3..], gaps[3..]) == g3;
    assert Lay(words[2..], gaps[2..]) == g2 + w2 + g3;
    assert Lay(words[1..], gaps[1..]) == g1 + w1 + (g2 + w2 + g3);
    assert g0 + w0 + (g1 + w1 + (g2 + w2 + g3)) == g0 + w0 + g1 + w1 + g2 + w2 + g3;
  }

  lemma SpellsLineSays(line: string, r: Request)
    requires Spells(Tokens(line), r)
    ensures LineSays(line, r)
  {
    hide Separators, NoSeparator, ParseInt, Gaps, Words, Lay, SaysWord, SaysOne, SaysTwo;
    var words := Tokens(line);
    var gaps := LayOfTokens(line);
    hide Tokens;
    match r
    case ShowOne(id) => LaidOne(words, gaps, id);
    case Buy(id, count) => LaidTwo(words, gaps, id, count);
    case Sell(id, count) => LaidTwo(words, gaps, id, count);
    case _ => LaidWord(words, gaps);
  }

  /** A line within the buffer is understood as r exactly when it says so. */
  lemma GrammarWrittenOut(line: string, r: Request)
    requires '\0' !in line && |line| < 8192
    ensures Understood(line) == Some(r) <==> LineSays(line, r)
  {
    hide LineSays;
    assert LocalCopy(line) == line;
    if LineSays(line, r) {
      LineSaysSpells(line, r);
      SpellsOne(Tokens(line), r, Understood(line).value);
    }
    if Understood(line) == Some(r) { SpellsLineSays(line, r); }
  }

  /** A printed request with any of the four separators around and between its words is understood. */
  lemma PrintedWithSeparators(r: Request, gaps: seq<string>, line: string)
    requires r.Valid() && |gaps| == |Spelling(r)| + 1
    requires forall g, c :: g in gaps && c in g ==> c == ' ' || c == '\t' || c == '\r' || c == '\n'
    requires forall i :: 0 < i < |gaps| - 1 ==> gaps[i] != ""
    requires line == Lay(Spelling(r), gaps) && '\0' !in line && |line| < 8192
    ensures Understood(line) == Some(r)
  {
    forall i | 0 <= i < |gaps| ensures Gap(gaps[i]) {
      assert gaps[i] in gaps;
      SeparatorsAreGaps(gaps[i]);
    }
    ParseInvertsPrint(r, gaps, line);
  }
}
