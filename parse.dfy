/** Parsing of the user's arguments (`_parse_gender`,
    `_validate_and_parse_join_command`) and the one-line rendering of a record
    (`_format_player_info`). */
module Parse {
  import opened Text
  import opened Records

  datatype Option<T> = None | Some(value: T)

  /** The code of a lower-cased, stripped gender word. */
  function GenderCode(w: string): (r: Option<string>)
    ensures r.Some? ==> IsGenderCode(r.value)
    ensures r == Some("br") <==> w in {"br", "新娘"}
    ensures r == Some("gr") <==> w in {"gr", "新郎"}
    ensures r.None? <==> w !in {"br", "gr", "新郎", "新娘"}
  {
    if w == "br" || w == "新娘" then Some("br")
    else if w == "gr" || w == "新郎" then Some("gr")
    else None
  }

  /** `_parse_gender`: strip, lower-case, then map the two spellings of each
      role to its code. */
  function ParseGender(raw: string): (r: Option<string>)
    ensures r.Some? ==> IsGenderCode(r.value)
  {
    GenderCode(Lower(Strip(raw)))
  }

  /** Parsing ignores surrounding whitespace, and a blank word does not parse. */
  lemma ParseGenderStrip(raw: string)
    ensures ParseGender(Strip(raw)) == ParseGender(raw)
    ensures Strip(raw) == [] ==> ParseGender(raw).None?
  {
    var t := Strip(raw);
    StripIdempotent(raw);
    assert Strip(t) == t;
    assert ParseGender(t) == GenderCode(Lower(t));
    if t == [] {
      assert |Lower(t)| == 0;
      BlankGenderCode(Lower(t));
    }
  }

  lemma BlankGenderCode(w: string)
    requires |w| == 0
    ensures GenderCode(w).None?
  {
  }

  /** The gender group of the join pattern, `(br|gr|新郎|新娘)` under `re.IGNORECASE`.
      Only ASCII letters have case in these four words. */
  predicate IsGenderToken(g: string) {
    Lower(g) in {"br", "gr", "新郎", "新娘"}
  }

  /** A gender token has no whitespace in it. */
  lemma GenderTokenNoSpace(g: string)
    requires IsGenderToken(g)
    ensures g != [] && NoSpace(g)
  {
    var l := Lower(g);
    assert NoSpace(l);
    forall i | 0 <= i < |g| ensures !IsSpace(g[i]) {
      assert l[i] == LowerChar(g[i]);
      LowerCharSpace(g[i]);
    }
  }

  /** Every spelling the join pattern accepts is one that `_parse_gender` maps to a code. */
  lemma GenderTokenParses(g: string)
    requires IsGenderToken(g)
    ensures ParseGender(g).Some?
    ensures ParseGender(g) == Some("br") <==> Lower(g) in {"br", "新娘"}
  {
    GenderTokenNoSpace(g);
    StripClean(g);
    assert ParseGender(g) == GenderCode(Lower(g));
  }

  /** The longest prefix without whitespace, and what follows it. */
  function TakeToken(s: string): (r: (string, string))
    ensures r.0 + r.1 == s
    ensures NoSpace(r.0)
    ensures r.1 == [] || IsSpace(r.1[0])
  {
    if s == [] || IsSpace(s[0]) then ([], s)
    else
      var r := TakeToken(s[1..]);
      assert [s[0]] + r.0 + r.1 == s;
      ([s[0]] + r.0, r.1)
  }

  lemma {:induction false} TakeTokenSplit(x: string, y: string)
    requires NoSpace(x)
    requires y == [] || IsSpace(y[0])
    ensures TakeToken(x + y) == (x, y)
    decreases |x|
  {
    if x == [] {
      assert x + y == y;
    } else {
      assert (x + y)[1..] == x[1..] + y;
      TakeTokenSplit(x[1..], y);
      assert [x[0]] + x[1..] == x;
    }
  }

  /** Leading whitespace, and what follows it. */
  function Gap(s: string): (r: (string, string))
    ensures r.0 + r.1 == s
    ensures AllSpace(r.0)
    ensures r.1 == TrimStart(s)
    ensures r.1 == [] || !IsSpace(r.1[0])
  {
    var t := TrimStart(s);
    TrimStartBlank(s);
    assert s == s[..|s| - |t|] + t;
    (s[..|s| - |t|], t)
  }

  /** A text up to its trailing whitespace, and that whitespace. */
  function Tail(s: string): (r: (string, string))
    ensures r.0 + r.1 == s
    ensures AllSpace(r.1)
    ensures r.0 == TrimEnd(s)
    ensures r.0 == [] || !IsSpace(r.0[|r.0| - 1])
  {
    var t := TrimEnd(s);
    assert s == t + s[|t|..];
    (t, s[|t|..])
  }

  /** The regular expression `^\s*(\S+?)\s+(br|gr|新郎|新娘)\s+(\S.*?)\s*$`
      under `re.match` with `re.IGNORECASE`, returning its three groups, each
      stripped. The first group can only be the whole first token, because it
      must be followed by whitespace; the second must be the whole second token;
      the third is the rest up to trailing whitespace, and `.` does not match a
      line feed. */
  function MatchJoinPattern(c: string): Option<(string, string, string)> {
    var a, t := Gap(c).0, Gap(c).1;
    var id, r1 := TakeToken(t).0, TakeToken(t).1;
    var w1, r2 := Gap(r1).0, Gap(r1).1;
    var g, r3 := TakeToken(r2).0, TakeToken(r2).1;
    var w2, r4 := Gap(r3).0, Gap(r3).1;
    var job, b := Tail(r4).0, Tail(r4).1;
    if id == [] || w1 == [] || !IsGenderToken(g) || w2 == [] || job == [] || '\n' in job then None
    else Some((id, g, job))
  }

  /** The shape the join pattern accepts, with its parts named: optional
      whitespace `a`, a whitespace-free token, a gap `w1`, a gender token, a gap
      `w2`, a job that neither begins nor ends with whitespace and holds no line
      feed, and optional whitespace `b`. */
  predicate JoinParts(c: string, a: string, id: string, w1: string, g: string, w2: string, job: string, b: string) {
    && c == a + (id + (w1 + (g + (w2 + (job + b)))))
    && AllSpace(a) && AllSpace(b)
    && w1 != [] && AllSpace(w1) && w2 != [] && AllSpace(w2)
    && id != [] && NoSpace(id)
    && IsGenderToken(g)
    && job != [] && !IsSpace(job[0]) && !IsSpace(job[|job| - 1]) && '\n' !in job
  }

  ghost predicate JoinShape(c: string, id: string, g: string, job: string) {
    exists a, w1, w2, b :: JoinParts(c, a, id, w1, g, w2, job, b)
  }

  /** What the pattern returns always has the accepted shape. */
  lemma MatchJoinSound(c: string)
    ensures MatchJoinPattern(c).Some? ==>
      var r := MatchJoinPattern(c).value; JoinShape(c, r.0, r.1, r.2)
  {
    var a, t := Gap(c).0, Gap(c).1;
    var id, r1 := TakeToken(t).0, TakeToken(t).1;
    var w1, r2 := Gap(r1).0, Gap(r1).1;
    var g, r3 := TakeToken(r2).0, TakeToken(r2).1;
    var w2, r4 := Gap(r3).0, Gap(r3).1;
    var job, b := Tail(r4).0, Tail(r4).1;
    if MatchJoinPattern(c).Some? {
      assert job == r4[..|job|] && job[0] == r4[0];
      assert JoinParts(c, a, id, w1, g, w2, job, b);
    }
  }

  /** Every input of the accepted shape is matched, with exactly its parts. */
  lemma MatchJoinComplete(c: string, a: string, id: string, w1: string, g: string, w2: string, job: string, b: string)
    requires JoinParts(c, a, id, w1, g, w2, job, b)
    ensures MatchJoinPattern(c) == Some((id, g, job))
  {
    GenderTokenNoSpace(g);
    var tail4 := job + b;
    var tail3 := w2 + tail4;
    var tail2 := g + tail3;
    var tail1 := w1 + tail2;
    var t := id + tail1;
    assert c == a + t;
    TrimStartPadded(a, t);
    TakeTokenSplit(id, tail1);
    TrimStartPadded(w1, tail2);
    TakeTokenSplit(g, tail3);
    TrimStartPadded(w2, tail4);
    TrimEndPadded(job, b);
  }

  /** `MatchJoinPattern` accepts exactly the inputs of the shape, in both directions. */
  lemma MatchJoinExact(c: string, id: string, g: string, job: string)
    ensures MatchJoinPattern(c) == Some((id, g, job)) <==> JoinShape(c, id, g, job)
  {
    MatchJoinSound(c);
    if JoinShape(c, id, g, job) {
      var a, w1, w2, b :| JoinParts(c, a, id, w1, g, w2, job, b);
      MatchJoinComplete(c, a, id, w1, g, w2, job, b);
    }
  }

  /** The three groups the pattern returns: a whitespace-free id, a gender
      token, and a stripped job without line feeds. */
  lemma MatchJoinFields(c: string)
    ensures MatchJoinPattern(c).Some? ==>
      var r := MatchJoinPattern(c).value;
      && r.0 != [] && NoSpace(r.0)
      && IsGenderToken(r.1)
      && r.2 != [] && Strip(r.2) == r.2 && '\n' !in r.2
  {
    MatchJoinSound(c);
    if MatchJoinPattern(c).Some? {
      var r := MatchJoinPattern(c).value;
      var a, w1, w2, b :| JoinParts(c, a, r.0, w1, r.1, w2, r.2, b);
      JoinPartsFields(c, a, r.0, w1, r.1, w2, r.2, b);
    }
  }

  lemma JoinPartsFields(c: string, a: string, id: string, w1: string, g: string, w2: string, job: string, b: string)
    requires JoinParts(c, a, id, w1, g, w2, job, b)
    ensures id != [] && NoSpace(id) && IsGenderToken(g)
    ensures job != [] && Strip(job) == job && '\n' !in job
  {
    StripPadded([], job, []);
    assert [] + job + [] == job;
  }

  /** The text the join pattern is applied to: the message with every
      `/APQ加入`, then every `/apq加入`, deleted, and stripped. */
  function CommandText(content: string): string {
    Strip(RemoveAll(RemoveAll(content, "/APQ加入"), "/apq加入"))
  }

  /** `_validate_and_parse_join_command`. */
  function ParseJoinCommand(content: string): (r: Option<(string, string, string)>)
    ensures r.Some? ==>
      && r.value.0 != [] && NoSpace(r.value.0)
      && IsGenderToken(r.value.1)
      && r.value.2 != [] && Strip(r.value.2) == r.value.2 && '\n' !in r.value.2
  {
    MatchJoinFields(CommandText(content));
    MatchJoinPattern(CommandText(content))
  }

  /** Whatever the join command accepts, `_parse_gender` turns into a code, so the
      gender error after parsing cannot be reached from the join command. */
  lemma JoinTokenAlwaysParses(content: string)
    requires ParseJoinCommand(content).Some?
    ensures ParseGender(ParseJoinCommand(content).value.1).Some?
  {
    GenderTokenParses(ParseJoinCommand(content).value.1);
  }

  /** The label `_format_player_info` shows for a gender code. */
  function GenderText(g: string): (r: string)
    ensures g == "br" ==> r == "新娘"
    ensures g == "gr" ==> r == "新郎"
    ensures !IsGenderCode(g) ==> r == g
  {
    if g == "br" then "新娘" else if g == "gr" then "新郎" else g
  }

  /** The shown label parses back to the code it shows. */
  lemma GenderTextRoundTrip(g: string)
    requires IsGenderCode(g)
    ensures ParseGender(GenderText(g)) == Some(g)
  {
    var t := GenderText(g);
    StripClean(t);
    LowerClean(t);
    CleanParses(t);
  }

  /** A word already stripped and lower-case is read as it stands. */
  lemma CleanParses(t: string)
    requires Strip(t) == t && Lower(t) == t
    ensures ParseGender(t) == GenderCode(t)
  {
  }

  /** `_format_player_info`: `[character] label job (QQ: user)`. */
  function FormatPlayerInfo(p: Player): string {
    "[" + p.characterId + "] " + GenderText(p.gender) + " " + p.job + " (QQ: " + p.userId + ")"
  }

  /** The text before the first occurrence of `c`. */
  function UpTo(s: string, c: char): (r: string)
    ensures |r| <= |s| && r == s[..|r|] && c !in r
  {
    if s == [] || s[0] == c then [] else [s[0]] + UpTo(s[1..], c)
  }

  lemma {:induction false} UpToSplit(x: string, c: char, y: string)
    requires c !in x
    ensures UpTo(x + [c] + y, c) == x
    decreases |x|
  {
    if x != [] {
      assert (x + [c] + y)[1..] == x[1..] + [c] + y;
      UpToSplit(x[1..], c, y);
      assert [x[0]] + x[1..] == x;
    }
  }

  /** Reading the character id back from a rendered line: the text between the
      leading `[` and the first `]`. */
  function CharacterIdOfLine(line: string): Option<string> {
    if line != [] && line[0] == '[' then Some(UpTo(line[1..], ']')) else None
  }

  /** A rendered line gives back the record's character id whenever that id
      holds no `]`. */
  lemma FormatPlayerInfoShowsCharacter(p: Player)
    requires ']' !in p.characterId
    ensures CharacterIdOfLine(FormatPlayerInfo(p)) == Some(p.characterId)
  {
    var line := FormatPlayerInfo(p);
    var rest := " " + GenderText(p.gender) + " " + p.job + " (QQ: " + p.userId + ")";
    assert line == "[" + (p.characterId + [']'] + rest);
    assert line[1..] == p.characterId + [']'] + rest;
    UpToSplit(p.characterId, ']', rest);
  }
}
