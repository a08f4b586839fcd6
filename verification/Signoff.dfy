/**
  Sign-off trailers: reading an identity out of one, and judging a commit by them.

  `ParseIdentityIffSpells` gives every value the reader accepts and what it reads in it, `ParseInvertsString` is the
  round trip, and `Judge` states each outcome without saying how it is looked for. `SignedByAuthorIff` and `ExemptsIff`
  spell out what is compared.
*/
module Signoff {
  import opened Outcomes
  import opened Splitting

  datatype Identity = Identity(name: string, email: string)

  datatype Commit = Commit(
    hash: string, parents: nat, author: Identity, subject: string, signoffs: seq<string>, cleanMerge: bool)

  /** identity.String */
  function String(id: Identity): string {
    id.name + " <" + id.email + ">"
  }

  /** What stands in front of the first such character and behind it, as strings.Cut gives them. */
  function Cut(s: string, c: char): (string, string) {
    if s == "" then ("", "")
    else if s[0] == c then ("", s[1..])
    else ([s[0]] + Cut(s[1..], c).0, Cut(s[1..], c).1)
  }

  predicate Blank(c: char) {
    c in {'<', '>', ' ', '\t'}
  }

  /** parseIdentity */
  function ParseIdentity(value: string): Option<Identity> {
    var (front, rest) := Cut(TrimSpace(value), '<');
    var closed := rest != "" && rest[|rest| - 1] == '>';
    var name := TrimSpace(front);
    var email := TrimSpace(if closed then rest[..|rest| - 1] else rest);
    if !closed || name == "" || '>' in name || '@' !in email || (exists c | c in email :: Blank(c)) then None
    else Some(Identity(name, email))
  }

  // ---------------------------------------------------------------- what a trailer value spells

  /** An identity git can record and a trailer can name. */
  predicate ValidIdentity(id: Identity) {
    && id.name != "" && Trimmed(id.name) && '<' !in id.name && '>' !in id.name
    && '@' in id.email && Trimmed(id.email)
    && '<' !in id.email && '>' !in id.email && ' ' !in id.email && '\t' !in id.email
  }

  function Spelled(id: Identity, space: seq<string>): string
    requires |space| == 5
  {
    space[0] + id.name + space[1] + "<" + space[2] + id.email + space[3] + ">" + space[4]
  }

  predicate FiveSpaces(space: seq<string>) {
    |space| == 5 && forall s | s in space :: AllSpace(s)
  }

  /** A name, an email in angle brackets behind it, and white space anywhere between. */
  ghost predicate Spells(value: string, id: Identity) {
    exists space :: FiveSpaces(space) && value == Spelled(id, space)
  }

  lemma {:induction false} CutAt(front: string, c: char, rest: string)
    requires c !in front
    ensures Cut(front + [c] + rest, c) == (front, rest)
  {
    var s := front + [c] + rest;
    if front == "" {
      assert s[1..] == rest;
    } else {
      assert s[1..] == front[1..] + [c] + rest;
      CutAt(front[1..], c, rest);
      assert front == [front[0]] + front[1..];
    }
  }

  lemma {:induction false} CutParts(s: string, c: char)
    ensures c !in Cut(s, c).0
    ensures if c in s then s == Cut(s, c).0 + [c] + Cut(s, c).1 else Cut(s, c) == (s, "")
  {
    if s == "" {
    } else {
      CutParts(s[1..], c);
      assert s == [s[0]] + s[1..];
    }
  }

  lemma SpelledIsAround(id: Identity, space: seq<string>)
    requires FiveSpaces(space)
    ensures Spelled(id, space)
         == space[0] + ((id.name + space[1]) + ['<'] + (space[2] + id.email + space[3] + [">"[0]])) + space[4]
  {}

  lemma {:induction false} ParseReads(id: Identity, space: seq<string>)
    requires ValidIdentity(id) && FiveSpaces(space)
    ensures ParseIdentity(Spelled(id, space)) == Some(id)
  {
    hide TrimSpace, Cut, Blank;
    var front := id.name + space[1];
    var inner := space[2] + id.email + space[3];
    var rest := inner + ['>'];
    var core := front + ['<'] + rest;
    SpelledIsAround(id, space);
    assert Spelled(id, space) == space[0] + core + space[4];
    assert !IsSpace('<') && !IsSpace('>');
    assert core[0] == id.name[0] && core[|core| - 1] == '>';
    forall i | 0 <= i < 5 ensures AllSpace(space[i]) {
      assert space[i] in space;
    }
    TrimOf(space[0], core, space[4]);
    CutAt(front, '<', rest);
    assert rest[..|rest| - 1] == inner;
    TrimOf("", id.name, space[1]);
    assert "" + id.name + space[1] == front;
    TrimOf(space[2], id.email, space[3]);
    BlanksAre(id.email);
  }

  lemma BlanksAre(email: string)
    ensures (exists c | c in email :: Blank(c)) <==> '<' in email || '>' in email || ' ' in email || '\t' in email
  {}

  lemma ParsedSpells(value: string)
    requires ParseIdentity(value).Some?
    ensures ValidIdentity(ParseIdentity(value).value)
    ensures Spells(value, ParseIdentity(value).value)
  {
    hide TrimSpace, Cut, Blank, IsSpace, AllSpace, Trimmed;
    var core := TrimSpace(value);
    var front, rest := Cut(core, '<').0, Cut(core, '<').1;
    var inner := rest[..|rest| - 1];
    var name, email := TrimSpace(front), TrimSpace(inner);
    BlanksAre(email);
    var s0, s4 := TrimLeaves(value);
    var n0, s1 := TrimLeaves(front);
    var s2, s3 := TrimLeaves(inner);
    CutParts(core, '<');
    assert '<' !in name by {
      assert forall c | c in name :: c in front;
    }
    NoLeadingSpace(core, front, n0, name, s1, rest);
    var space := [s0, s1, s2, s3, s4];
    var id := Identity(name, email);
    assert rest == inner + ['>'];
    SpelledIsAround(id, space);
    assert FiveSpaces(space);
    assert value == Spelled(id, space);
  }

  /** A trimmed value's name starts where the value does. */
  lemma NoLeadingSpace(core: string, front: string, before: string, name: string, after: string, rest: string)
    requires Trimmed(core) && core == front + ['<'] + rest && front == before + name + after && AllSpace(before)
    ensures before == ""
  {
    hide IsSpace;
    if before != "" {
      FirstOf(before, core);
    }
  }

  lemma FirstOf(before: string, core: string)
    requires before != "" && AllSpace(before) && |before| <= |core| && core[0] == before[0]
    ensures !Trimmed(core)
  {
    assert before[0] in before;
  }

  /** The reader takes a value for an identity exactly when the identity is valid and the value spells it. */
  lemma ParseIdentityIffSpells(value: string, id: Identity)
    ensures ParseIdentity(value) == Some(id) <==> ValidIdentity(id) && Spells(value, id)
  {
    hide ParseIdentity, ValidIdentity, Spelled;
    if ParseIdentity(value) == Some(id) {
      ParsedSpells(value);
    }
    if ValidIdentity(id) && Spells(value, id) {
      var space :| FiveSpaces(space) && value == Spelled(id, space);
      ParseReads(id, space);
    }
  }

  /** Reading inverts writing on the valid identities and on no other. */
  lemma ParseInvertsString(id: Identity)
    ensures ParseIdentity(String(id)) == Some(id) <==> ValidIdentity(id)
  {
    var space := ["", " ", "", "", ""];
    assert FiveSpaces(space);
    assert Spelled(id, space) == String(id);
    ParseIdentityIffSpells(String(id), id);
  }

  // ---------------------------------------------------------------- one person, two spellings

  /** strings.EqualFold, given the character each simple-fold orbit is represented by. */
  predicate EqualFold(fold: char -> char, a: string, b: string) {
    |a| == |b| && forall i | 0 <= i < |a| :: fold(a[i]) == fold(b[i])
  }

  /** sameIdentity */
  predicate SameIdentity(fold: char -> char, a: Identity, b: Identity) {
    EqualFold(fold, a.name, b.name) && EqualFold(fold, a.email, b.email)
  }

  /** As long as each other, and the same up to case at every place, in the name and in the email. */
  ghost predicate SamePerson(fold: char -> char, a: Identity, b: Identity) {
    && |a.name| == |b.name| && |a.email| == |b.email|
    && (forall i | 0 <= i < |a.name| :: fold(a.name[i]) == fold(b.name[i]))
    && forall i | 0 <= i < |a.email| :: fold(a.email[i]) == fold(b.email[i])
  }

  // ---------------------------------------------------------------- judging a commit

  datatype Bot = Bot(author: Identity, login: string, reason: string)

  datatype Outcome = SignedOff | Unsigned | SignedByOthers | Exempt | Merge

  datatype Verdict = Verdict(commit: Commit, outcome: Outcome, bot: Option<Bot>)

  predicate Failed(v: Verdict) {
    v.outcome.Unsigned? || v.outcome.SignedByOthers?
  }

  predicate Exempts(fold: char -> char, bot: Bot, author: Identity, openedBy: string) {
    EqualFold(fold, bot.login, openedBy) && SameIdentity(fold, bot.author, author)
  }

  /** A trailer value names a person. */
  predicate Names(fold: char -> char, value: string, author: Identity) {
    ParseIdentity(value).Some? && SameIdentity(fold, ParseIdentity(value).value, author)
  }

  predicate SignedByAuthor(fold: char -> char, c: Commit) {
    exists value | value in c.signoffs :: Names(fold, value, c.author)
  }

  /** The bot is the first of the declared ones with the property. */
  ghost predicate FirstWith(bots: seq<Bot>, bot: Option<Bot>, has: Bot -> bool) {
    match bot
    case Some(b) => exists i | 0 <= i < |bots| :: bots[i] == b && has(b) && forall j | 0 <= j < i :: !has(bots[j])
    case None => forall j | 0 <= j < |bots| :: !has(bots[j])
  }

  /** exemptingBot */
  method ExemptingBot(fold: char -> char, bots: seq<Bot>, author: Identity, openedBy: string)
    returns (bot: Option<Bot>)
    ensures FirstWith(bots, bot, (b: Bot) => Exempts(fold, b, author, openedBy))
  {
    hide Exempts;
    for i := 0 to |bots|
      invariant forall j | 0 <= j < i :: !Exempts(fold, bots[j], author, openedBy)
    {
      if Exempts(fold, bots[i], author, openedBy) {
        return Some(bots[i]);
      }
    }
    return None;
  }

  /** claimedBot */
  method ClaimedBot(fold: char -> char, bots: seq<Bot>, author: Identity) returns (bot: Option<Bot>)
    ensures FirstWith(bots, bot, (b: Bot) => SameIdentity(fold, b.author, author))
  {
    hide SameIdentity;
    for i := 0 to |bots|
      invariant forall j | 0 <= j < i :: !SameIdentity(fold, bots[j].author, author)
    {
      if SameIdentity(fold, bots[i].author, author) {
        return Some(bots[i]);
      }
    }
    return None;
  }

  ghost predicate BotExempts(fold: char -> char, bots: seq<Bot>, c: Commit, openedBy: string) {
    exists bot | bot in bots :: Exempts(fold, bot, c.author, openedBy)
  }

  /** judge */
  method Judge(fold: char -> char, bots: seq<Bot>, c: Commit, openedBy: string) returns (v: Verdict)
    ensures v.commit == c
    ensures v.outcome.Merge? <==> c.cleanMerge
    ensures v.outcome.Exempt? <==> !c.cleanMerge && BotExempts(fold, bots, c, openedBy)
    ensures !c.cleanMerge && !BotExempts(fold, bots, c, openedBy) ==> (!Failed(v) <==> SignedByAuthor(fold, c))
    ensures v.outcome.Unsigned? ==> c.signoffs == []
    ensures v.outcome.SignedByOthers? ==> c.signoffs != []
    ensures v.outcome.Merge? || v.outcome.SignedOff? ==> v.bot.None?
    ensures v.outcome.Exempt? ==> v.bot.Some? && FirstWith(bots, v.bot, (b: Bot) => Exempts(fold, b, c.author, openedBy))
    ensures Failed(v) ==> FirstWith(bots, v.bot, (b: Bot) => SameIdentity(fold, b.author, c.author))
  {
    hide Exempts, SameIdentity, ParseIdentity;
    if c.cleanMerge {
      return Verdict(c, Merge, None);
    }
    var exempting := ExemptingBot(fold, bots, c.author, openedBy);
    if exempting.Some? {
      return Verdict(c, Exempt, exempting);
    }
    for i := 0 to |c.signoffs|
      invariant forall j | 0 <= j < i :: !Names(fold, c.signoffs[j], c.author)
    {
      var signer := ParseIdentity(c.signoffs[i]);
      if signer.Some? && SameIdentity(fold, signer.value, c.author) {
        assert c.signoffs[i] in c.signoffs && Names(fold, c.signoffs[i], c.author);
        return Verdict(c, SignedOff, None);
      }
    }
    var outcome := Unsigned;
    if |c.signoffs| > 0 {
      outcome := SignedByOthers;
    }
    var claimed := ClaimedBot(fold, bots, c.author);
    return Verdict(c, outcome, claimed);
  }

  /** The author's own identity, in whatever case and with whatever white space, signs the commit off. */
  lemma AuthorsSpellingSignsOff(fold: char -> char, c: Commit, value: string, spelled: Identity)
    requires value in c.signoffs && ValidIdentity(spelled) && Spells(value, spelled)
    requires SameIdentity(fold, spelled, c.author)
    ensures SignedByAuthor(fold, c)
  {
    ParseIdentityIffSpells(value, spelled);
    assert Names(fold, value, c.author);
  }

  /** A commit is signed off exactly by a trailer that spells a valid identity which is the author's up to case. */
  lemma SignedByAuthorIff(fold: char -> char, c: Commit)
    ensures SignedByAuthor(fold, c)
      <==> exists value, id ::
             value in c.signoffs && ValidIdentity(id) && Spells(value, id) && SamePerson(fold, id, c.author)
  {
    hide ParseIdentity, ValidIdentity, Spells;
    forall value, id ensures ParseIdentity(value) == Some(id) <==> ValidIdentity(id) && Spells(value, id) {
      ParseIdentityIffSpells(value, id);
    }
    if SignedByAuthor(fold, c) {
      var value :| value in c.signoffs && Names(fold, value, c.author);
      var id := ParseIdentity(value).value;
      assert ValidIdentity(id) && Spells(value, id) && SamePerson(fold, id, c.author);
    }
    forall value, id
      | value in c.signoffs && ValidIdentity(id) && Spells(value, id) && SamePerson(fold, id, c.author)
      ensures SignedByAuthor(fold, c)
    {
      assert Names(fold, value, c.author);
    }
  }

  /** A bot exempts what it authored when the pull request was opened under its login, both up to case. */
  lemma ExemptsIff(fold: char -> char, bot: Bot, author: Identity, openedBy: string)
    ensures Exempts(fold, bot, author, openedBy)
      <==> && SamePerson(fold, bot.author, author) && |bot.login| == |openedBy|
           && forall i | 0 <= i < |openedBy| :: fold(bot.login[i]) == fold(openedBy[i])
  {}

  /** The bot a commit claims to be of is one whose author is the commit's up to case. */
  lemma SameIdentityIff(fold: char -> char, a: Identity, b: Identity)
    ensures SameIdentity(fold, a, b) <==> SamePerson(fold, a, b)
  {}
}
