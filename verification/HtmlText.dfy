/** The text of a text token: white space, entities, and when reading it throws. */
module HtmlText {
  import opened Options

  // ---- White space: what is to be shown of text without entities ----

  predicate IsBreak(c: char) {
    c == '\r' || c == '\n'
  }

  // c is added to the text, or left out.
  function Put(text: string, c: char, leaveOut: bool): string {
    if leaveOut then text else text + [c]
  }

  predicate EndsInSpace(s: string) {
    s != [] && s[|s| - 1] == ' '
  }

  // Text without entities, read outside <pre>: no line ends, and one space for a run of them.
  function NoBreaks(s: string): string {
    if s == [] then [] else Put(NoBreaks(s[..|s| - 1]), s[|s| - 1], IsBreak(s[|s| - 1]))
  }

  function Squeeze(s: string): string {
    if s == [] then [] else Put(Squeeze(s[..|s| - 1]), s[|s| - 1], s[|s| - 1] == ' ' && EndsInSpace(s[..|s| - 1]))
  }

  // Text right after <pre>: line ends become line feeds.
  function Unix(s: string): string {
    if s == [] then []
    else
      var c := s[|s| - 1];
      Put(Unix(s[..|s| - 1]), if c == '\r' then '\n' else c, c == '\n' && |s| > 1 && s[|s| - 2] == '\r')
  }

  function Plain(s: string, isPre: bool): string {
    if isPre then Unix(s) else Squeeze(NoBreaks(s))
  }

  // What one character adds to the text, and whether the text now ends in a space.
  lemma PreGrows(s: string, c: char)
    ensures Plain(s + [c], true) == Put(Plain(s, true), if c == '\r' then '\n' else c, c == '\n' && s != [] && s[|s| - 1] == '\r')
  {
    assert (s + [c])[..|s|] == s;
  }

  lemma NoBreaksGrows(s: string, c: char)
    ensures NoBreaks(s + [c]) == Put(NoBreaks(s), c, IsBreak(c))
  {
    assert (s + [c])[..|s|] == s;
  }

  lemma FlatGrows(s: string, c: char)
    ensures Plain(s + [c], false) == Put(Plain(s, false), c, IsBreak(c) || (c == ' ' && EndsInSpace(NoBreaks(s))))
    ensures EndsInSpace(NoBreaks(s + [c])) == if IsBreak(c) then EndsInSpace(NoBreaks(s)) else c == ' '
  {
    NoBreaksGrows(s, c);
    var t := NoBreaks(s);
    assert (t + [c])[..|t|] == t;
  }

  // The loop of ToText has read cs[..start], never stopping inside a CR LF.
  ghost predicate Through(cs: string, start: nat, text: string, continueSpace: bool, isPre: bool) {
    && start <= |cs| && text == Plain(cs[..start], isPre)
    && continueSpace == EndsInSpace(NoBreaks(cs[..start]))
    && (0 < start < |cs| && cs[start - 1] == '\r' ==> cs[start] != '\n')
  }

  lemma ReadOne(cs: string, start: nat, text: string, continueSpace: bool, isPre: bool)
    requires Through(cs, start, text, continueSpace, isPre) && start < |cs|
    requires !(cs[start] == '\r' && start + 1 < |cs| && cs[start + 1] == '\n')
    ensures var c := cs[start];
            Through(cs, start + 1, Put(text, if isPre && c == '\r' then '\n' else c, !isPre && (IsBreak(c) || (c == ' ' && continueSpace))),
                    if IsBreak(c) then continueSpace else c == ' ', isPre)
  {
    assert cs[..start + 1] == cs[..start] + [cs[start]];
    FlatGrows(cs[..start], cs[start]);
    PreGrows(cs[..start], cs[start]);
  }

  lemma ReadLineEnd(cs: string, start: nat, text: string, continueSpace: bool, isPre: bool)
    requires Through(cs, start, text, continueSpace, isPre) && start + 1 < |cs| && cs[start] == '\r' && cs[start + 1] == '\n'
    ensures Through(cs, start + 2, Put(text, '\n', !isPre), continueSpace, isPre)
  {
    var s := cs[..start];
    assert cs[..start + 2] == s + ['\r'] + ['\n'];
    FlatGrows(s, '\r');
    FlatGrows(s + ['\r'], '\n');
    PreGrows(s, '\r');
    PreGrows(s + ['\r'], '\n');
  }

  // ---- Entities ----

  // How readUtil ends: at the semicolon, at its length limit, or past the end of the array, where it throws.
  datatype Reach = Found(length: nat) | Missing | Overruns

  const MAX_LENGTH := 10

  function Reading(cs: string, start: nat, k: nat): (r: Reach)
    requires start <= k <= start + MAX_LENGTH
    ensures r.Found? ==> k - start < r.length <= MAX_LENGTH && start + r.length <= |cs| && cs[start + r.length - 1] == ';'
    decreases start + MAX_LENGTH - k
  {
    if k == start + MAX_LENGTH then Missing
    else if k >= |cs| then Overruns
    else if cs[k] == ';' then Found(k - start + 1)
    else Reading(cs, start, k + 1)
  }

  /** readUtil cuts its end to the array and then does not use it. */
  method ReadUtil(cs: string, start: nat) returns (r: Reach)
    ensures r == Reading(cs, start, start)
  {
    var i := start;
    while i < start + MAX_LENGTH
      invariant start <= i <= start + MAX_LENGTH && Reading(cs, start, i) == Reading(cs, start, start)
    {
      if i >= |cs| {
        return Overruns;
      }
      if cs[i] == ';' {
        return Found(i - start + 1);
      }
      i := i + 1;
    }
    r := Missing;
  }

  function SpecialChar(spec: string): Option<string> {
    match spec
    case "&quot;" => Some("/")
    case "&lt;" => Some("<")
    case "&gt;" => Some(">")
    case "&amp;" => Some("&")
    case "&reg;" => Some("(r)")
    case "&copy;" => Some("(c)")
    case "&nbsp;" => Some(" ")
    case "&pound;" => Some("?")
    case _ => None
  }

  // The char that a number between `&#` and `;` stands for, None if it is no number or out of range.
  type Numeric = string -> Option<char>

  datatype Shown = Shown(text: string, taken: nat)

  // What an `&` adds, and how many characters it takes; None if it throws.
  function Entity(cs: string, start: nat, numeric: Numeric): (r: Option<Shown>)
    requires start < |cs| && cs[start] == '&'
    ensures r.Some? ==> 0 < r.value.taken && start + r.value.taken <= |cs|
  {
    match Reading(cs, start, start)
    case Overruns => None
    case Missing => Some(Shown(['&'], 1))
    case Found(length) =>
      match SpecialChar(cs[start..start + length])
      case Some(special) => Some(Shown(special, length))
      case None =>
        if cs[start + 1] != '#' then Some(Shown(['&'], 1))
        else
          match numeric(cs[start + 2..start + length - 1])
          case Some(c) => Some(Shown([c], 1))
          case None => Some(Shown(['&', '#'], 2))
  }

  // What toText makes of the text from `start` on, behind `text`.
  function Show(cs: string, start: nat, isPre: bool, continueSpace: bool, text: string, numeric: Numeric): Option<string>
    requires start <= |cs|
    decreases |cs| - start
  {
    if start == |cs| then Some(text)
    else
      var c := cs[start];
      if c == ' ' then Show(cs, start + 1, isPre, true, Put(text, c, !isPre && continueSpace), numeric)
      else if IsBreak(c) then
        var taken := if c == '\r' && start + 1 < |cs| && cs[start + 1] == '\n' then 2 else 1;
        Show(cs, start + taken, isPre, continueSpace, Put(text, '\n', !isPre), numeric)
      else if c != '&' then Show(cs, start + 1, isPre, false, text + [c], numeric)
      else
        match Entity(cs, start, numeric)
        case None => None
        case Some(Shown(more, taken)) => Show(cs, start + taken, isPre, false, text + more, numeric)
  }

  method ToText(html: string, isPre: bool, numeric: Numeric) returns (text: Option<string>)
    ensures text == Show(html, 0, isPre, false, "", numeric)
  {
    var cs, buffer := html, "";
    var start, continueSpace := 0, false;
    while start < |cs|
      invariant start <= |cs|
      invariant Show(cs, start, isPre, continueSpace, buffer, numeric) == Show(html, 0, isPre, false, "", numeric)
    {
      var current := cs[start];
      var next := if start + 1 < |cs| then cs[start + 1] else '\0';
      if current == ' ' {
        if isPre || !continueSpace {
          buffer := buffer + [' '];
        }
        continueSpace := true;
        start := start + 1;
        continue;
      }
      if current == '\r' && next == '\n' {
        if isPre {
          buffer := buffer + ['\n'];
        }
        start := start + 2;
        continue;
      }
      if current == '\n' || current == '\r' {
        if isPre {
          buffer := buffer + ['\n'];
        }
        start := start + 1;
        continue;
      }
      continueSpace := false;
      if current == '&' {
        var shown := ReadEntity(cs, start, numeric);
        if shown.None? {
          return None;
        }
        buffer := buffer + shown.value.text;
        start := start + shown.value.taken;
      } else {
        buffer := buffer + [current];
        start := start + 1;
      }
    }
    return Some(buffer);
  }

  method ReadEntity(cs: string, start: nat, numeric: Numeric) returns (r: Option<Shown>)
    requires start < |cs| && cs[start] == '&'
    ensures r == Entity(cs, start, numeric)
  {
    var reach := ReadUtil(cs, start);
    if reach.Overruns? {
      return None;
    }
    if reach.Missing? {
      return Some(Shown(['&'], 1));
    }
    var length := reach.length;
    var special := SpecialChar(cs[start..start + length]);
    if special.Some? {
      return Some(Shown(special.value, length));
    }
    if cs[start + 1] == '#' {
      var number := numeric(cs[start + 2..start + length - 1]);
      if number.Some? {
        return Some(Shown([number.value], 1));
      }
      return Some(Shown(['&', '#'], 2));
    }
    return Some(Shown(['&'], 1));
  }

  // ---- Text without entities ----

  /** Without `&`, one pass with a lookahead of one gives what the two passes give. */
  lemma {:induction false} PlainShow(cs: string, start: nat, isPre: bool, continueSpace: bool, text: string, numeric: Numeric)
    requires Through(cs, start, text, continueSpace, isPre) && '&' !in cs
    ensures Show(cs, start, isPre, continueSpace, text, numeric) == Some(Plain(cs, isPre))
    decreases |cs| - start
  {
    if start == |cs| {
      assert cs[..|cs|] == cs;
    } else {
      var c := cs[start];
      assert c in cs;
      if c == '\r' && start + 1 < |cs| && cs[start + 1] == '\n' {
        ReadLineEnd(cs, start, text, continueSpace, isPre);
        PlainShow(cs, start + 2, isPre, continueSpace, Put(text, '\n', !isPre), numeric);
      } else {
        ReadOne(cs, start, text, continueSpace, isPre);
        var leaveOut := !isPre && (IsBreak(c) || (c == ' ' && continueSpace));
        PlainShow(cs, start + 1, isPre, if IsBreak(c) then continueSpace else c == ' ',
                  Put(text, if isPre && c == '\r' then '\n' else c, leaveOut), numeric);
      }
    }
  }

  lemma PlainText(s: string, isPre: bool, numeric: Numeric)
    requires '&' !in s
    ensures Show(s, 0, isPre, false, "", numeric) == Some(Plain(s, isPre))
  {
    PlainShow(s, 0, isPre, false, "", numeric);
  }

  predicate Flat(s: string) {
    '\r' !in s && '\n' !in s && forall k :: 1 <= k < |s| ==> !(s[k - 1] == ' ' && s[k] == ' ')
  }

  lemma {:induction false} NoBreaksDrops(s: string)
    ensures '\r' !in NoBreaks(s) && '\n' !in NoBreaks(s)
    ensures '\r' !in s && '\n' !in s ==> NoBreaks(s) == s
  {
    if s != [] {
      NoBreaksDrops(s[..|s| - 1]);
      assert s == s[..|s| - 1] + [s[|s| - 1]];
    }
  }

  lemma {:induction false} SqueezeFlat(s: string)
    requires '\r' !in s && '\n' !in s
    ensures Flat(Squeeze(s)) && EndsInSpace(Squeeze(s)) == EndsInSpace(s)
    ensures Flat(s) ==> Squeeze(s) == s
  {
    if s != [] {
      SqueezeFlat(s[..|s| - 1]);
      assert s == s[..|s| - 1] + [s[|s| - 1]];
    }
  }

  /** Outside <pre> the text has no line ends and no two spaces together, and showing it again changes nothing. */
  lemma PlainIsFlat(s: string)
    ensures Flat(Plain(s, false)) && Plain(Plain(s, false), false) == Plain(s, false)
    ensures Flat(s) <==> Plain(s, false) == s
  {
    NoBreaksDrops(s);
    SqueezeFlat(NoBreaks(s));
    NoBreaksDrops(Plain(s, false));
    SqueezeFlat(Plain(s, false));
    if Flat(s) {
      SqueezeFlat(s);
    }
  }

  lemma {:induction false} NothingAdded(s: string, c: char)
    requires c !in s
    ensures c !in NoBreaks(s) && c !in Squeeze(s)
  {
    if s != [] {
      assert s == s[..|s| - 1] + [s[|s| - 1]];
      NothingAdded(s[..|s| - 1], c);
    }
  }

  /** So toText is idempotent on text without `&`. */
  lemma ToTextIsStable(s: string, numeric: Numeric)
    requires '&' !in s
    ensures var shown := Show(s, 0, false, false, "", numeric);
            && shown.Some? && Flat(shown.value) && '&' !in shown.value
            && Show(shown.value, 0, false, false, "", numeric) == shown
  {
    PlainText(s, false, numeric);
    PlainIsFlat(s);
    NothingAdded(s, '&');
    NothingAdded(NoBreaks(s), '&');
    PlainText(Plain(s, false), false, numeric);
  }

  lemma {:induction false} UnixKeeps(s: string)
    ensures '\r' !in Unix(s)
    ensures '\r' !in s ==> Unix(s) == s
  {
    if s != [] {
      UnixKeeps(s[..|s| - 1]);
      assert s == s[..|s| - 1] + [s[|s| - 1]];
    }
  }

  /** After <pre> the text has no carriage returns, and showing it again changes nothing. */
  lemma PreIsStable(s: string)
    ensures '\r' !in Plain(s, true) && Plain(Plain(s, true), true) == Plain(s, true)
  {
    UnixKeeps(s);
    UnixKeeps(Unix(s));
  }

  // ---- When it throws ----

  // An `&` close to the end with no semicolon behind it.
  predicate Dangles(cs: string, p: nat) {
    p < |cs| < p + 10 && cs[p] == '&' && ';' !in cs[p..]
  }

  lemma {:induction false} ReadingOverruns(cs: string, start: nat, k: nat)
    requires start <= k <= start + MAX_LENGTH && k <= |cs|
    ensures Reading(cs, start, k) == Overruns <==> |cs| < start + MAX_LENGTH && forall j :: k <= j < |cs| ==> cs[j] != ';'
    decreases start + MAX_LENGTH - k
  {
    if k < start + MAX_LENGTH && k < |cs| && cs[k] != ';' {
      ReadingOverruns(cs, start, k + 1);
    }
  }

  lemma EntityThrows(cs: string, start: nat, numeric: Numeric)
    requires start < |cs| && cs[start] == '&'
    ensures Entity(cs, start, numeric).None? <==> Dangles(cs, start)
  {
    ReadingOverruns(cs, start, start);
    assert ';' in cs[start..] <==> exists j :: start <= j < |cs| && cs[j] == ';' by {
      if j :| start <= j < |cs| && cs[j] == ';' {
        assert cs[start..][j - start] == ';';
      }
    }
  }

  lemma SpecialHasOneAmpersand(spec: string, k: nat)
    requires SpecialChar(spec).Some? && 0 < k < |spec|
    ensures spec[k] != '&'
  {
  }

  lemma EntityTakesOneAmpersand(cs: string, start: nat, numeric: Numeric, k: nat)
    requires start < |cs| && cs[start] == '&' && Entity(cs, start, numeric).Some?
    requires start < k < start + Entity(cs, start, numeric).value.taken
    ensures cs[k] != '&'
  {
    var reach := Reading(cs, start, start);
    if reach.Found? {
      var spec := cs[start..start + reach.length];
      if SpecialChar(spec).Some? {
        SpecialHasOneAmpersand(spec, k - start);
      }
    }
  }

  /** toText throws exactly on a text with an `&` in its last nine characters and no semicolon behind it. */
  lemma {:induction false} ShowThrows(cs: string, start: nat, isPre: bool, continueSpace: bool, text: string, numeric: Numeric)
    requires start <= |cs|
    ensures Show(cs, start, isPre, continueSpace, text, numeric).None? <==> exists p :: start <= p < |cs| && Dangles(cs, p)
    decreases |cs| - start
  {
    if start < |cs| {
      var c := cs[start];
      if c == ' ' {
        ShowThrows(cs, start + 1, isPre, true, Put(text, c, !isPre && continueSpace), numeric);
      } else if IsBreak(c) {
        var taken := if c == '\r' && start + 1 < |cs| && cs[start + 1] == '\n' then 2 else 1;
        ShowThrows(cs, start + taken, isPre, continueSpace, Put(text, '\n', !isPre), numeric);
      } else if c != '&' {
        ShowThrows(cs, start + 1, isPre, false, text + [c], numeric);
      } else {
        EntityThrows(cs, start, numeric);
        if Entity(cs, start, numeric).Some? {
          var shown := Entity(cs, start, numeric).value;
          forall k | start < k < start + shown.taken ensures cs[k] != '&' {
            EntityTakesOneAmpersand(cs, start, numeric, k);
          }
          ShowThrows(cs, start + shown.taken, isPre, false, text + shown.text, numeric);
        }
      }
    }
  }

  // Characters that are shown as they stand.
  predicate Ordinary(s: string) {
    forall k :: 0 <= k < |s| ==> s[k] != ' ' && s[k] != '&' && !IsBreak(s[k])
  }

  lemma {:induction false} OrdinaryShow(cs: string, start: nat, end: nat, isPre: bool, text: string, numeric: Numeric)
    requires start <= end <= |cs| && Ordinary(cs[start..end])
    ensures Show(cs, start, isPre, false, text, numeric) == Show(cs, end, isPre, false, text + cs[start..end], numeric)
    decreases end - start
  {
    if start < end {
      assert cs[start] == cs[start..end][0];
      assert cs[start..end] == [cs[start]] + cs[start + 1..end];
      OrdinaryShow(cs, start + 1, end, isPre, text + [cs[start]], numeric);
      assert text + [cs[start]] + cs[start + 1..end] == text + cs[start..end];
    } else {
      assert text + cs[start..end] == text;
    }
  }

  lemma NumericEntity(cs: string, start: nat, numeric: Numeric, n: nat, c: char)
    requires start < |cs| && cs[start] == '&' && Reading(cs, start, start) == Found(n) && cs[start + 1] == '#'
    requires numeric(cs[start + 2..start + n - 1]) == Some(c)
    ensures Entity(cs, start, numeric) == Some(Shown([c], 1))
  {
    var spec := cs[start..start + n];
    assert spec[1] == '#';
    assert SpecialChar(spec).None?;
  }

  // The first semicolon behind `start` is at `end`, near enough to be found.
  predicate SemicolonAt(cs: string, start: nat, end: nat) {
    start <= end < |cs| && end < start + 10 && cs[end] == ';' && ';' !in cs[start..end]
  }

  lemma {:induction false} ReadingFinds(cs: string, start: nat, k: nat, end: nat)
    requires start <= k <= end && SemicolonAt(cs, start, end)
    ensures Reading(cs, start, k) == Found(end + 1 - start)
    decreases end - k
  {
    if k < end {
      assert cs[k] == cs[start..end][k - start];
      ReadingFinds(cs, start, k + 1, end);
    }
  }

  lemma {:induction false} ReadingMisses(cs: string, start: nat, k: nat)
    requires start <= k <= start + 10 <= |cs| && ';' !in cs[start..start + 10]
    ensures Reading(cs, start, k) == Missing
    decreases start + 10 - k
  {
    if k < start + 10 {
      assert cs[k] == cs[start..start + 10][k - start];
      ReadingMisses(cs, start, k + 1);
    }
  }

  // The entities with a text of their own.
  const SPECIALS: set<string> := {"&quot;", "&lt;", "&gt;", "&amp;", "&reg;", "&copy;", "&nbsp;", "&pound;"}

  /** An `&` that starts nothing known is shown as it stands, and so is `&#` in front of what is no number. */
  lemma OtherAmpersands(cs: string, start: nat, end: nat, isPre: bool, continueSpace: bool, text: string, numeric: Numeric)
    requires start < |cs| && cs[start] == '&'
    ensures start + 10 <= |cs| && ';' !in cs[start..start + 10] ==>
              Show(cs, start, isPre, continueSpace, text, numeric) == Show(cs, start + 1, isPre, false, text + "&", numeric)
    ensures SemicolonAt(cs, start, end) && cs[start..end + 1] !in SPECIALS && cs[start + 1] != '#' ==>
              Show(cs, start, isPre, continueSpace, text, numeric) == Show(cs, start + 1, isPre, false, text + "&", numeric)
    ensures SemicolonAt(cs, start, end) && cs[start + 1] == '#' && numeric(cs[start + 2..end]) == None ==>
              Show(cs, start, isPre, continueSpace, text, numeric) == Show(cs, start + 2, isPre, false, text + "&#", numeric)
  {
    if start + 10 <= |cs| && ';' !in cs[start..start + 10] {
      ReadingMisses(cs, start, start);
    } else if SemicolonAt(cs, start, end) {
      ReadingFinds(cs, start, start, end);
      var spec := cs[start..end + 1];
      assert spec[1] == cs[start + 1];
    }
  }

  /** A numeric entity is shown twice: as its char, and, since only its `&` is taken, as it stands without the `&`. */
  lemma NumericEntityStays(cs: string, start: nat, isPre: bool, continueSpace: bool, text: string, numeric: Numeric, n: nat, c: char)
    requires start < |cs| && cs[start] == '&' && Reading(cs, start, start) == Found(n) && cs[start + 1] == '#'
    requires numeric(cs[start + 2..start + n - 1]) == Some(c)
    ensures Show(cs, start, isPre, continueSpace, text, numeric) == Show(cs, start + 1, isPre, false, text + [c], numeric)
    ensures var rest := cs[start + 1..start + n];
            Ordinary(rest) ==>
              Show(cs, start, isPre, continueSpace, text, numeric) == Show(cs, start + n, isPre, false, text + [c] + rest, numeric)
  {
    NumericEntity(cs, start, numeric, n, c);
    if Ordinary(cs[start + 1..start + n]) {
      OrdinaryShow(cs, start + 1, start + n, isPre, text + [c], numeric);
    }
  }

  /** `&#65;` is shown as `A#65;`. */
  lemma NumericEntityTwice(isPre: bool, numeric: Numeric)
    requires numeric("65") == Some('A')
    ensures Show("&#65;", 0, isPre, false, "", numeric) == Some("A#65;")
  {
    var cs := "&#65;";
    assert cs[2..4] == "65" && cs[1..5] == "#65;" && "" + ['A'] + "#65;" == "A#65;";
    ReadingFinds(cs, 0, 0, 4);
    NumericEntityStays(cs, 0, isPre, false, "", numeric, 5, 'A');
  }

  // A special entity, wherever it stands.
  lemma SpecialStep(cs: string, start: nat, end: nat, isPre: bool, continueSpace: bool, text: string, numeric: Numeric, special: string)
    requires start < |cs| && cs[start] == '&' && SemicolonAt(cs, start, end) && SpecialChar(cs[start..end + 1]) == Some(special)
    ensures Show(cs, start, isPre, continueSpace, text, numeric) == Show(cs, end + 1, isPre, false, text + special, numeric)
  {
    ReadingFinds(cs, start, start, end);
  }

  // A text that is one special entity and some ordinary characters behind it.
  lemma SpecialShow(spec: string, more: string, isPre: bool, numeric: Numeric, special: string)
    requires |spec| <= 10 && spec != [] && spec[0] == '&' && spec[|spec| - 1] == ';' && ';' !in spec[..|spec| - 1]
    requires SpecialChar(spec) == Some(special) && Ordinary(more)
    ensures Show(spec + more, 0, isPre, false, "", numeric) == Some(special + more)
  {
    var cs := spec + more;
    assert cs[0..|spec|] == spec && cs[0..|spec| - 1] == spec[..|spec| - 1] && cs[|spec|..|cs|] == more;
    assert "" + special == special;
    SpecialStep(cs, 0, |spec| - 1, isPre, false, "", numeric, special);
    OrdinaryShow(cs, |spec|, |cs|, isPre, special, numeric);
  }

  // The eight entities that have a text of their own.
  lemma MarkupEntities(more: string, isPre: bool, numeric: Numeric)
    requires Ordinary(more)
    ensures Show("&lt;" + more, 0, isPre, false, "", numeric) == Some("<" + more)
    ensures Show("&gt;" + more, 0, isPre, false, "", numeric) == Some(">" + more)
  {
    SpecialShow("&lt;", more, isPre, numeric, "<");
    SpecialShow("&gt;", more, isPre, numeric, ">");
  }

  lemma TextEntities(more: string, isPre: bool, numeric: Numeric)
    requires Ordinary(more)
    ensures Show("&amp;" + more, 0, isPre, false, "", numeric) == Some("&" + more)
    ensures Show("&nbsp;" + more, 0, isPre, false, "", numeric) == Some(" " + more)
    ensures Show("&quot;" + more, 0, isPre, false, "", numeric) == Some("/" + more)
  {
    SpecialShow("&amp;", more, isPre, numeric, "&");
    SpecialShow("&nbsp;", more, isPre, numeric, " ");
    SpecialShow("&quot;", more, isPre, numeric, "/");
  }

  lemma SymbolEntities(more: string, isPre: bool, numeric: Numeric)
    requires Ordinary(more)
    ensures Show("&reg;" + more, 0, isPre, false, "", numeric) == Some("(r)" + more)
    ensures Show("&copy;" + more, 0, isPre, false, "", numeric) == Some("(c)" + more)
    ensures Show("&pound;" + more, 0, isPre, false, "", numeric) == Some("?" + more)
  {
    SpecialShow("&reg;", more, isPre, numeric, "(r)");
    SpecialShow("&copy;", more, isPre, numeric, "(c)");
    SpecialShow("&pound;", more, isPre, numeric, "?");
  }

  /** With entities toText is not idempotent: `&amp;lt;` is shown as `&lt;`, and that as `<`. */
  lemma NotStableWithEntities(isPre: bool, numeric: Numeric)
    ensures Show("&amp;lt;", 0, isPre, false, "", numeric) == Some("&lt;")
    ensures Show("&lt;", 0, isPre, false, "", numeric) == Some("<")
  {
    assert "&amp;" + "lt;" == "&amp;lt;" && "&" + "lt;" == "&lt;" && "&lt;" + "" == "&lt;" && "<" + "" == "<";
    SpecialShow("&amp;", "lt;", isPre, numeric, "&");
    SpecialShow("&lt;", "", isPre, numeric, "<");
  }
}
