/**
 * The pure parts of the Firestore helpers: the display name made from an
 * e-mail address, the choice of display name for a new profile, and the
 * record written for a diary entry. The Firestore calls are not modelled.
 */
module FirestoreActions {
  import opened Wrappers
  import opened Text
  import opened Sequences
  import opened FoodTypes

  // ----- createDisplayNameFromEmail -----

  /** `email.split('@')[0]`: the text before the first `@`, or all of it. */
  function LocalPart(email: string): string {
    Split(email, '@')[0]
  }

  /** `replace(/[^a-zA-Z0-9]/g, ' ')`. */
  function BlankNonAlnum(s: string): (r: string)
    ensures |r| == |s|
  {
    seq(|s|, i requires 0 <= i < |s| => if IsAlnum(s[i]) then s[i] else ' ')
  }

  /** `replace(/\s+/g, ' ')`: each maximal run of whitespace becomes one space. */
  function CollapseSpaces(s: string): string
    decreases |s|
  {
    if s == [] then []
    else if IsSpace(s[0]) then [' '] + CollapseSpaces(TrimStart(s[1..]))
    else [s[0]] + CollapseSpaces(s[1..])
  }

  function CreateDisplayNameFromEmail(email: string): string {
    Trim(CollapseSpaces(BlankNonAlnum(LocalPart(email))))
  }

  predicate AlnumOrSpace(s: string) {
    forall i :: 0 <= i < |s| ==> IsAlnum(s[i]) || s[i] == ' '
  }

  predicate NoDoubleSpace(s: string) {
    forall i :: 0 <= i < |s| - 1 ==> s[i] != ' ' || s[i + 1] != ' '
  }

  /** The letters and digits of a text, in order. */
  function Alnums(s: string): string {
    Filter(s, IsAlnum)
  }

  lemma AlnumsCons(c: char, s: string)
    ensures Alnums([c] + s) == (if IsAlnum(c) then [c] else []) + Alnums(s)
  {
    FilterAppend([c], s, IsAlnum);
    assert [c][..0] == [];
  }

  /** Deleting whitespace keeps the letters and digits. */
  lemma AlnumsSpaces(a: string, b: string)
    requires forall i :: 0 <= i < |a| ==> IsSpace(a[i])
    ensures Alnums(a + b) == Alnums(b)
  {
    FilterAppend(a, b, IsAlnum);
    FilterNone(a, IsAlnum);
  }

  lemma {:induction false} BlankNonAlnumKeeps(s: string)
    ensures AlnumOrSpace(BlankNonAlnum(s))
    ensures Alnums(BlankNonAlnum(s)) == Alnums(s)
  {
    if s != [] {
      var init := s[..|s| - 1];
      BlankNonAlnumKeeps(init);
      assert BlankNonAlnum(s)[..|s| - 1] == BlankNonAlnum(init);
    }
  }

  lemma {:induction false} CollapseCharset(s: string)
    requires AlnumOrSpace(s)
    ensures AlnumOrSpace(CollapseSpaces(s))
    decreases |s|
  {
    if s != [] {
      if IsSpace(s[0]) {
        var t := TrimStart(s[1..]);
        assert forall i :: 0 <= i < |t| ==> t[i] == s[1..][|s[1..]| - |t| + i];
        CollapseCharset(t);
      } else {
        CollapseCharset(s[1..]);
      }
    }
  }

  lemma {:induction false} CollapseNoDouble(s: string)
    ensures NoDoubleSpace(CollapseSpaces(s))
    decreases |s|
  {
    if s != [] {
      if IsSpace(s[0]) {
        var t := TrimStart(s[1..]);
        CollapseNoDouble(t);
        var c := CollapseSpaces(t);
        assert c != [] ==> c[0] == t[0];
      } else {
        CollapseNoDouble(s[1..]);
      }
    }
  }

  lemma {:induction false} CollapseKeepsAlnums(s: string)
    ensures Alnums(CollapseSpaces(s)) == Alnums(s)
    decreases |s|
  {
    if s != [] {
      if IsSpace(s[0]) {
        var t := TrimStart(s[1..]);
        CollapseKeepsAlnums(t);
        SpaceRunAlnums(s, t, CollapseSpaces(t));
      } else {
        CollapseKeepsAlnums(s[1..]);
        OtherCharAlnums(s, CollapseSpaces(s[1..]));
      }
    }
  }

  /** A run of whitespace replaced by one space: neither holds a letter or digit. */
  lemma SpaceRunAlnums(s: string, t: string, c: string)
    requires s != [] && IsSpace(s[0]) && t == TrimStart(s[1..]) && Alnums(c) == Alnums(t)
    ensures Alnums([' '] + c) == Alnums(s)
  {
    SpaceThenAlnums(' ', c);
    SpaceHeadAlnums(s);
    TrimStartAlnums(s[1..]);
  }

  /** A leading whitespace character adds no letter or digit. */
  lemma SpaceThenAlnums(c: char, s: string)
    requires IsSpace(c)
    ensures Alnums([c] + s) == Alnums(s)
  {
    AlnumsCons(c, s);
  }

  lemma SpaceHeadAlnums(s: string)
    requires s != [] && IsSpace(s[0])
    ensures Alnums(s) == Alnums(s[1..])
  {
    AlnumsTail(s);
  }

  lemma OtherCharAlnums(s: string, c: string)
    requires s != [] && !IsSpace(s[0]) && Alnums(c) == Alnums(s[1..])
    ensures Alnums([s[0]] + c) == Alnums(s)
  {
    AlnumsCons(s[0], c);
    AlnumsTail(s);
  }

  lemma AlnumsTail(s: string)
    requires s != []
    ensures Alnums(s) == (if IsAlnum(s[0]) then [s[0]] else []) + Alnums(s[1..])
  {
    assert s == [s[0]] + s[1..];
    AlnumsCons(s[0], s[1..]);
  }

  /** Both shape properties hold of every slice. */
  lemma SliceKeepsShape(s: string, i: nat, j: nat)
    requires i <= j <= |s|
    ensures AlnumOrSpace(s) ==> AlnumOrSpace(s[i..j])
    ensures NoDoubleSpace(s) ==> NoDoubleSpace(s[i..j])
  {
    assert forall k :: 0 <= k < j - i ==> s[i..j][k] == s[i + k];
  }

  lemma TrimStartKeepsShape(s: string)
    ensures Alnums(TrimStart(s)) == Alnums(s)
    ensures AlnumOrSpace(s) ==> AlnumOrSpace(TrimStart(s))
    ensures NoDoubleSpace(s) ==> NoDoubleSpace(TrimStart(s))
  {
    var t := TrimStart(s);
    TrimStartAlnums(s);
    assert t == s[|s| - |t|..|s|];
    SliceKeepsShape(s, |s| - |t|, |s|);
  }

  lemma TrimStartAlnums(s: string)
    ensures Alnums(TrimStart(s)) == Alnums(s)
  {
    var t := TrimStart(s);
    var k := |s| - |t|;
    assert s == s[..k] + t;
    AlnumsSpaces(s[..k], t);
  }

  lemma TrimEndKeepsShape(s: string)
    ensures Alnums(TrimEnd(s)) == Alnums(s)
    ensures AlnumOrSpace(s) ==> AlnumOrSpace(TrimEnd(s))
    ensures NoDoubleSpace(s) ==> NoDoubleSpace(TrimEnd(s))
  {
    var r := TrimEnd(s);
    assert s == r + s[|r|..];
    FilterAppend(r, s[|r|..], IsAlnum);
    FilterNone(s[|r|..], IsAlnum);
    assert r == s[0..|r|];
    SliceKeepsShape(s, 0, |r|);
  }

  /** Trimming keeps the letters and digits and the two shape properties. */
  lemma TrimKeepsShape(s: string)
    ensures Alnums(Trim(s)) == Alnums(s)
    ensures AlnumOrSpace(s) ==> AlnumOrSpace(Trim(s))
    ensures NoDoubleSpace(s) ==> NoDoubleSpace(Trim(s))
  {
    TrimStartKeepsShape(s);
    TrimEndKeepsShape(TrimStart(s));
  }

  // ----- Where the spaces of the derived name go -----

  /** The length of the run of letters and digits that `s` starts with. */
  function AlnumPrefix(s: string): (n: nat)
    ensures n <= |s|
    ensures forall i :: 0 <= i < n ==> IsAlnum(s[i])
    ensures n < |s| ==> !IsAlnum(s[n])
  {
    if s != [] && IsAlnum(s[0]) then 1 + AlnumPrefix(s[1..]) else 0
  }

  /** The maximal runs of letters and digits of `s`, left to right. */
  function AlnumRuns(s: string): (r: seq<string>)
    ensures forall k :: 0 <= k < |r| ==> r[k] != [] && AllAlnum(r[k])
    decreases |s|
  {
    if s == [] then []
    else if !IsAlnum(s[0]) then AlnumRuns(s[1..])
    else [s[..AlnumPrefix(s)]] + AlnumRuns(s[AlnumPrefix(s)..])
  }

  predicate AllAlnum(s: string) {
    forall i :: 0 <= i < |s| ==> IsAlnum(s[i])
  }

  /** Two texts with letters and digits at the same places, and the same ones there. */
  predicate SameAlnums(s: string, t: string) {
    |s| == |t| &&
    forall i :: 0 <= i < |s| ==> (IsAlnum(s[i]) <==> IsAlnum(t[i])) && (IsAlnum(s[i]) ==> s[i] == t[i])
  }

  lemma BlankSameAlnums(s: string)
    ensures SameAlnums(s, BlankNonAlnum(s))
  {
  }

  lemma SameAlnumsSlice(s: string, t: string, k: nat)
    requires SameAlnums(s, t) && k <= |s|
    ensures SameAlnums(s[k..], t[k..])
  {
    assert forall i :: 0 <= i < |s| - k ==> s[k..][i] == s[k + i] && t[k..][i] == t[k + i];
  }

  lemma SameAlnumsPrefix(s: string, t: string)
    requires SameAlnums(s, t)
    ensures AlnumPrefix(s) == AlnumPrefix(t)
    ensures s[..AlnumPrefix(s)] == t[..AlnumPrefix(t)]
  {
    var m, n := AlnumPrefix(s), AlnumPrefix(t);
  }

  /** Runs depend only on where the letters and digits are and what they are. */
  lemma {:induction false} SameAlnumsRuns(s: string, t: string)
    requires SameAlnums(s, t)
    ensures AlnumRuns(s) == AlnumRuns(t)
    decreases |s|
  {
    if s != [] {
      if !IsAlnum(s[0]) {
        SameAlnumsSlice(s, t, 1);
        SameAlnumsRuns(s[1..], t[1..]);
      } else {
        SameAlnumsPrefix(s, t);
        SameAlnumsSlice(s, t, AlnumPrefix(s));
        SameAlnumsRuns(s[AlnumPrefix(s)..], t[AlnumPrefix(s)..]);
      }
    }
  }

  /** Leading whitespace holds no run. */
  lemma {:induction false} RunsTrimStart(s: string)
    ensures AlnumRuns(TrimStart(s)) == AlnumRuns(s)
    decreases |s|
  {
    if s != [] && IsSpace(s[0]) {
      RunsTrimStart(s[1..]);
    }
  }

  /** A run of letters and digits passes the collapse unchanged. */
  lemma {:induction false} CollapseAlnumPrefix(t: string)
    ensures CollapseSpaces(t) == t[..AlnumPrefix(t)] + CollapseSpaces(t[AlnumPrefix(t)..])
    decreases |t|
  {
    if t != [] && IsAlnum(t[0]) {
      var n := AlnumPrefix(t);
      assert n == 1 + AlnumPrefix(t[1..]);
      CollapseAlnumPrefix(t[1..]);
      assert t[1..][..n - 1] == t[1..n];
      assert t[1..][n - 1..] == t[n..];
      assert !IsSpace(t[0]);
      CollapseStep(t, n, CollapseSpaces(t), CollapseSpaces(t[1..]), CollapseSpaces(t[n..]));
    } else {
      assert t[0..] == t;
    }
  }

  lemma CollapseStep(t: string, n: nat, ct: string, c1: string, crest: string)
    requires 1 <= n <= |t| && ct == [t[0]] + c1 && c1 == t[1..n] + crest
    ensures ct == t[..n] + crest
  {
    assert [t[0]] + t[1..n] == t[..n];
  }

  /** Trailing whitespace is trimmed inside `x` when `x` starts with a non-space. */
  lemma {:induction false} TrimEndAfter(p: string, x: string)
    requires x != [] && !IsSpace(x[0])
    ensures TrimEnd(p + x) == p + TrimEnd(x)
    decreases |x|
  {
    if IsSpace(x[|x| - 1]) {
      assert (p + x)[..|p + x| - 1] == p + x[..|x| - 1];
      TrimEndAfter(p, x[..|x| - 1]);
    }
  }

  /** After a run `w` and a space, a collapsed text `c` that starts a run adds its own runs. */
  lemma RunThenRuns(w: string, c: string, rs: seq<string>)
    requires w != [] && !IsSpace(w[0]) && c != [] && !IsSpace(c[0])
    requires rs != [] && Trim(c) == Join(rs, " ")
    ensures Trim(w + " " + c) == Join([w] + rs, " ")
  {
    TrimEndAfter(w + " ", c);
    assert (w + " " + c)[0] == w[0];
    assert ([w] + rs)[1..] == rs;
  }

  /** A lone run, with or without one space after it, trims to itself. */
  lemma RunAlone(w: string)
    requires w != [] && forall i :: 0 <= i < |w| ==> IsAlnum(w[i])
    ensures Trim(w) == Join([w], " ")
    ensures Trim(w + " ") == Join([w], " ")
  {
    TrimProperties(w);
    assert (w + " ")[..|w|] == w;
  }

  /** A text starting with a space collapses that space and the whitespace after it. */
  lemma SpaceHead(rest: string)
    requires rest != [] && rest[0] == ' '
    ensures CollapseSpaces(rest) == " " + CollapseSpaces(TrimStart(rest[1..]))
    ensures AlnumRuns(rest) == AlnumRuns(TrimStart(rest[1..]))
  {
    RunsTrimStart(rest[1..]);
  }

  /** A text starting with a letter or digit: its collapse starts there and it has a run. */
  lemma RunHead(u: string)
    requires u != [] && IsAlnum(u[0])
    ensures CollapseSpaces(u) != [] && CollapseSpaces(u)[0] == u[0] && AlnumRuns(u) != []
  {
    assert !IsSpace(u[0]);
    assert CollapseSpaces(u) == [u[0]] + CollapseSpaces(u[1..]);
  }

  /** A leading space is trimmed away. */
  lemma TrimLeadingSpace(x: string)
    ensures Trim(" " + x) == Trim(x)
  {
    assert (" " + x)[1..] == x;
  }

  /**
   * Collapsing and trimming a text of letters, digits and spaces joins its
   * runs of letters and digits with one space each.
   */
  lemma {:induction false} CollapseTrimRuns(t: string)
    requires AlnumOrSpace(t)
    ensures Trim(CollapseSpaces(t)) == Join(AlnumRuns(t), " ")
    decreases |t|
  {
    if t != [] {
      if !IsAlnum(t[0]) {
        var u := TrimStart(t[1..]);
        SliceKeepsShape(t, |t| - |u|, |t|);
        CollapseTrimRuns(u);
        RunsTrimStart(t[1..]);
        TrimLeadingSpace(CollapseSpaces(u));
      } else {
        var n := AlnumPrefix(t);
        CollapseAlnumPrefix(t);
        SliceKeepsShape(t, n, |t|);
        RunThenSpace(t[..n], t[n..]);
      }
    }
  }

  /** The step of `CollapseTrimRuns` after a run `w`, with `rest` the text after it. */
  lemma {:induction false} RunThenSpace(w: string, rest: string)
    requires w != [] && forall i :: 0 <= i < |w| ==> IsAlnum(w[i])
    requires AlnumOrSpace(rest) && (rest != [] ==> !IsAlnum(rest[0]))
    ensures Trim(w + CollapseSpaces(rest)) == Join([w] + AlnumRuns(rest), " ")
    decreases |rest|, 0
  {
    if rest == [] {
      assert w + rest == w;
      RunAlone(w);
    } else {
      var u := TrimStart(rest[1..]);
      SpaceHead(rest);
      SliceKeepsShape(rest, |rest| - |u|, |rest|);
      if u == [] {
        RunAlone(w);
        assert w + " " + [] == w + " " && [w] + [] == [w];
        SpaceTail(w, CollapseSpaces(rest), [], AlnumRuns(rest), []);
      } else {
        CollapseTrimRuns(u);
        RunHead(u);
        RunThenRuns(w, CollapseSpaces(u), AlnumRuns(u));
        SpaceTail(w, CollapseSpaces(rest), CollapseSpaces(u), AlnumRuns(rest), AlnumRuns(u));
      }
    }
  }

  lemma SpaceTail(w: string, cr: string, c: string, rr: seq<string>, rs: seq<string>)
    requires cr == " " + c && rr == rs && Trim(w + " " + c) == Join([w] + rs, " ")
    ensures Trim(w + cr) == Join([w] + rr, " ")
  {
    assert w + cr == w + " " + c;
  }

  /**
   * The derived name holds only ASCII letters, digits and spaces, has no
   * space at either end and no two spaces in a row, and keeps every letter
   * and digit of the text before the first `@`, in order: it is the maximal
   * runs of letters and digits of that text joined by single spaces.
   */
  lemma DisplayNameFromEmailSpec(email: string)
    ensures AlnumOrSpace(CreateDisplayNameFromEmail(email))
    ensures NoDoubleSpace(CreateDisplayNameFromEmail(email))
    ensures IsTrimmed(CreateDisplayNameFromEmail(email))
    ensures Alnums(CreateDisplayNameFromEmail(email)) == Alnums(LocalPart(email))
    ensures CreateDisplayNameFromEmail(email) == Join(AlnumRuns(LocalPart(email)), " ")
  {
    var b := BlankNonAlnum(LocalPart(email));
    BlankSameAlnums(LocalPart(email));
    SameAlnumsRuns(LocalPart(email), b);
    BlankNonAlnumKeeps(LocalPart(email));
    CollapseCharset(b);
    CollapseNoDouble(b);
    CollapseKeepsAlnums(b);
    TrimKeepsShape(CollapseSpaces(b));
    TrimProperties(CollapseSpaces(b));
    CollapseTrimRuns(b);
  }

  /** A dot between two words becomes the space between them. */
  lemma DottedNameExample()
    ensures CreateDisplayNameFromEmail("john.smith@x.com") == "john smith"
  {
    var l := "john.smith";
    assert l + "@" + "x.com" == "john.smith@x.com";
    LocalPartSpec(l, "x.com");
    DisplayNameFromEmailSpec("john.smith@x.com");
    JohnSmithRuns(l);
  }

  lemma JohnSmithRuns(l: string)
    requires l == "john.smith"
    ensures Join(AlnumRuns(l), " ") == "john smith"
  {
    assert AllAlnum("john") && AllAlnum("smith");
    assert l == "john" + ".smith";
    RunFirst("john", ".smith");
    assert ".smith"[1..] == "smith" + [];
    RunFirst("smith", []);
  }

  /** A text that starts with the run `a` has `a` as its first run. */
  lemma RunFirst(a: string, b: string)
    requires a != [] && AllAlnum(a) && (b == [] || !IsAlnum(b[0]))
    ensures AlnumRuns(a + b) == [a] + AlnumRuns(b)
  {
    var s := a + b;
    assert AlnumPrefix(s) == |a|;
    assert s[..|a|] == a && s[|a|..] == b;
  }

  /** Only the text before the first `@` matters; an address without `@` is used whole. */
  lemma LocalPartSpec(local: string, domain: string)
    requires '@' !in local
    ensures LocalPart(local) == local
    ensures LocalPart(local + "@" + domain) == local
    ensures CreateDisplayNameFromEmail(local + "@" + domain) == CreateDisplayNameFromEmail(local)
  {
    var s := local + "@" + domain;
    SplitFirst(local, '@');
    SplitFirst(s, '@');
    assert s[|local|] == '@';
    assert s[..|local|] == local;
  }

  // ----- The display name of a new profile -----

  /** The fields of a signed-in user that the profile uses; `None` is `null`. */
  datatype AuthUser = AuthUser(uid: string, displayName: Option<string>, email: Option<string>, photoURL: Option<string>)

  /** `user.displayName || (user.email ? createDisplayNameFromEmail(user.email) : 'Gouty User')`. */
  function ChooseDisplayName(user: AuthUser): string {
    if Truthy(user.displayName) then user.displayName.value
    else if Truthy(user.email) then CreateDisplayNameFromEmail(user.email.value)
    else "Gouty User"
  }

  /** The profile document written for the user. */
  datatype ProfileData = ProfileData(uid: string, displayName: string, email: Option<string>, photoURL: Option<string>)

  function ProfileDataOf(user: AuthUser): ProfileData {
    ProfileData(user.uid, ChooseDisplayName(user), user.email, user.photoURL)
  }

  /**
   * The own display name when there is one; else the name derived from the
   * e-mail address when there is one; else the fixed default. The other
   * profile fields are the user's own.
   */
  lemma DisplayNameChoice(user: AuthUser)
    ensures Truthy(user.displayName) ==> ProfileDataOf(user).displayName == user.displayName.value
    ensures !Truthy(user.displayName) && Truthy(user.email) ==>
              ProfileDataOf(user).displayName == CreateDisplayNameFromEmail(user.email.value)
    ensures !Truthy(user.displayName) && !Truthy(user.email) ==> ProfileDataOf(user).displayName == "Gouty User"
    ensures var p := ProfileDataOf(user); p.uid == user.uid && p.email == user.email && p.photoURL == user.photoURL
  {
  }

  /** A name without letters or digits is empty: trimming leaves no space behind. */
  lemma NoAlnumsEmptyName(email: string)
    requires Alnums(LocalPart(email)) == []
    ensures CreateDisplayNameFromEmail(email) == ""
  {
    var r := CreateDisplayNameFromEmail(email);
    DisplayNameFromEmailSpec(email);
    if r != [] {
      FilterMembers(r, IsAlnum);
    }
  }

  lemma UnderscoresLocalPart(email: string)
    requires email == "__@example.com"
    ensures LocalPart(email) == "__"
  {
    assert email == "__" + "@" + "example.com";
    LocalPartSpec("__", "example.com");
  }

  lemma UnderscoresNoAlnums(local: string)
    requires local == "__"
    ensures Alnums(local) == []
  {
    FilterNone(local, IsAlnum);
  }

  /** An address with no letter or digit before the `@` gives an empty display name, which is stored as it is. */
  lemma EmptyDerivedName(user: AuthUser)
    requires user.displayName == None && user.email == Some("__@example.com")
    ensures ProfileDataOf(user).displayName == ""
  {
    UnderscoresLocalPart(user.email.value);
    UnderscoresNoAlnums("__");
    NoAlnumsEmptyName(user.email.value);
  }

  // ----- The diary-entry record -----

  /** The `serverTimestamp()` placeholder the server replaces by the write time. */
  datatype Timestamp = ServerTimestamp

  /** The record `addDiaryEntry` adds; level and category are stored as their texts. */
  datatype DiaryEntryData = DiaryEntryData(foodName: string, purines: Option<int>, purineLevel: string, category: string,
                                           servingSize: real, createdAt: Timestamp)

  function EntryData(food: FoodItem, servingSize: real): DiaryEntryData {
    DiaryEntryData(food.name, food.purines, food.purineLevel.Label(), food.category.Label(), servingSize, ServerTimestamp)
  }

  function LevelOfLabel(s: string): Option<PurineLevel> {
    if s == "Low" then Some(Low)
    else if s == "Medium" then Some(Medium)
    else if s == "High" then Some(High)
    else if s == "Very High" then Some(VeryHigh)
    else None
  }

  function CategoryOfLabel(s: string): Option<Category> {
    if s == "Seafood" then Some(Seafood)
    else if s == "Meat" then Some(Meat)
    else if s == "Dairy" then Some(Dairy)
    else if s == "Legumes" then Some(Legumes)
    else if s == "Grains" then Some(Grains)
    else if s == "Nuts" then Some(Nuts)
    else if s == "Fruits" then Some(Fruits)
    else if s == "Vegetables" then Some(Vegetables)
    else if s == "Beverages" then Some(Beverages)
    else if s == "Other" then Some(Other)
    else None
  }

  /** The food an entry describes, when its level and category texts are known ones. */
  function FoodOfEntry(e: DiaryEntryData): Option<FoodItem> {
    match (LevelOfLabel(e.purineLevel), CategoryOfLabel(e.category))
    case (Some(l), Some(c)) => Some(FoodItem(e.foodName, e.purines, c, l))
    case _ => None
  }

  lemma LevelLabelRoundTrip(l: PurineLevel)
    ensures LevelOfLabel(l.Label()) == Some(l)
  {
  }

  lemma CategoryLabelRoundTrip(c: Category)
    ensures CategoryOfLabel(c.Label()) == Some(c)
  {
  }

  /**
   * The entry copies the food field for field, so the food can be read
   * back from it; the serving size is the argument and the creation time
   * is left to the server.
   */
  lemma EntryDataSpec(food: FoodItem, servingSize: real)
    ensures FoodOfEntry(EntryData(food, servingSize)) == Some(food)
    ensures EntryData(food, servingSize).servingSize == servingSize
    ensures EntryData(food, servingSize).createdAt == ServerTimestamp
  {
    LevelLabelRoundTrip(food.purineLevel);
    CategoryLabelRoundTrip(food.category);
  }
}
