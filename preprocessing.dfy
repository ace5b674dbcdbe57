/** PatriotPilot/preprocessing1.py: a scraped JSON page is flattened into one
    labelled text, cleaned (lower case, no punctuation, no stopwords) and cut
    into fixed-size chunks for the vector index. */
module Preprocessing {
  import opened PyStrings

  /** A parsed JSON value. Object members keep their insertion order, as a
      Python dict does; numbers, booleans and null are all JOther. */
  datatype Json = JStr(s: string) | JList(items: seq<Json>) | JObj(members: seq<(string, Json)>) | JOther

  // ================================================================ flatten_and_label_json

  /** The label handed to the value of member `key`: f"{parent_key} {key}".strip() */
  function ChildKey(parentKey: string, key: string): string {
    Strip(parentKey + " " + key)
  }

  /** What one string leaf contributes: f"{parent_key}: {data}" + " | " */
  function Fragment(name: string, value: string): string {
    name + ": " + value + " | "
  }

  /** The text flatten_and_label_json(data, parentKey) returns. */
  function Flatten(data: Json, parentKey: string): string
    decreases data, 1
  {
    match data
    case JObj(members) => FlattenMembers(members, parentKey)
    case JList(items) => FlattenItems(items, parentKey)
    case JStr(s) => Fragment(parentKey, s)
    case JOther => ""
  }

  /** List elements are flattened under the parent's label, unchanged. */
  function FlattenItems(items: seq<Json>, parentKey: string): string
    decreases items, 0
  {
    if items == [] then "" else Flatten(items[0], parentKey) + FlattenItems(items[1..], parentKey)
  }

  /** Member values are flattened under the label extended by their key. */
  function FlattenMembers(members: seq<(string, Json)>, parentKey: string): string
    decreases members, 0
  {
    if members == [] then ""
    else
      var (key, value) := members[0];
      assert value < members[0];
      Flatten(value, ChildKey(parentKey, key)) + FlattenMembers(members[1..], parentKey)
  }

  lemma {:induction false} FlattenItemsAppend(xs: seq<Json>, ys: seq<Json>, parentKey: string)
    ensures FlattenItems(xs + ys, parentKey) == FlattenItems(xs, parentKey) + FlattenItems(ys, parentKey)
  {
    if xs == [] {
      assert xs + ys == ys;
    } else {
      assert (xs + ys)[1..] == xs[1..] + ys;
      FlattenItemsAppend(xs[1..], ys, parentKey);
    }
  }

  lemma {:induction false} FlattenMembersAppend(xs: seq<(string, Json)>, ys: seq<(string, Json)>, parentKey: string)
    ensures FlattenMembers(xs + ys, parentKey) == FlattenMembers(xs, parentKey) + FlattenMembers(ys, parentKey)
  {
    if xs == [] {
      assert xs + ys == ys;
    } else {
      assert (xs + ys)[1..] == xs[1..] + ys;
      FlattenMembersAppend(xs[1..], ys, parentKey);
    }
  }

  /** One more member at the end adds that member's text at the end. */
  lemma FlattenMembersSnoc(xs: seq<(string, Json)>, key: string, value: Json, parentKey: string)
    ensures FlattenMembers(xs + [(key, value)], parentKey)
      == FlattenMembers(xs, parentKey) + Flatten(value, ChildKey(parentKey, key))
  {
    FlattenMembersAppend(xs, [(key, value)], parentKey);
    assert [(key, value)][1..] == [];
  }

  /** One more item at the end adds that item's text at the end. */
  lemma FlattenItemsSnoc(xs: seq<Json>, item: Json, parentKey: string)
    ensures FlattenItems(xs + [item], parentKey) == FlattenItems(xs, parentKey) + Flatten(item, parentKey)
  {
    FlattenItemsAppend(xs, [item], parentKey);
    assert [item][1..] == [];
  }

  /** flatten_and_label_json as the source runs it: a recursive walk whose
      loops append each child's text to an accumulator. */
  method FlattenAndLabelJson(data: Json, parentKey: string) returns (flatText: string)
    ensures flatText == Flatten(data, parentKey)
    decreases data
  {
    flatText := "";
    match data {
      case JObj(members) =>
        var i := 0;
        while i < |members|
          invariant 0 <= i <= |members|
          invariant flatText == FlattenMembers(members[..i], parentKey)
        {
          var (key, value) := members[i];
          assert value < members[i];
          var fullKey := Strip(parentKey + " " + key);
          var part := FlattenAndLabelJson(value, fullKey);
          assert part == Flatten(value, ChildKey(parentKey, key));
          assert members[..i + 1] == members[..i] + [(key, value)];
          FlattenMembersSnoc(members[..i], key, value, parentKey);
          flatText := flatText + part;
          i := i + 1;
        }
        assert members[..i] == members;
        assert Flatten(data, parentKey) == FlattenMembers(members, parentKey);
      case JList(items) =>
        var i := 0;
        while i < |items|
          invariant 0 <= i <= |items|
          invariant flatText == FlattenItems(items[..i], parentKey)
        {
          var part := FlattenAndLabelJson(items[i], parentKey);
          assert items[..i + 1] == items[..i] + [items[i]];
          FlattenItemsSnoc(items[..i], items[i], parentKey);
          flatText := flatText + part;
          i := i + 1;
        }
        assert items[..i] == items;
        assert Flatten(data, parentKey) == FlattenItems(items, parentKey);
      case JStr(s) =>
        var labeledText := parentKey + ": " + s;
        assert flatText + labeledText == labeledText;
        flatText := flatText + labeledText + " | ";
      case JOther =>
    }
  }

  // ---------------------------------------------------------------- the leaves of a document

  /** A string leaf of a document: the keys passed on the way down to it,
      outermost first, and its value. */
  datatype Leaf = Leaf(path: seq<string>, value: string)

  /** Every string leaf of a document, in document order, found without any labels. */
  function Leaves(data: Json): seq<Leaf>
    decreases data, 1
  {
    match data
    case JObj(members) => MemberLeaves(members)
    case JList(items) => ItemLeaves(items)
    case JStr(s) => [Leaf([], s)]
    case JOther => []
  }

  function ItemLeaves(items: seq<Json>): seq<Leaf>
    decreases items, 0
  {
    if items == [] then [] else Leaves(items[0]) + ItemLeaves(items[1..])
  }

  function MemberLeaves(members: seq<(string, Json)>): seq<Leaf>
    decreases members, 0
  {
    if members == [] then []
    else
      var (key, value) := members[0];
      assert value < members[0];
      Under(key, Leaves(value)) + MemberLeaves(members[1..])
  }

  /** The same leaves seen one object level higher, through member `key`. */
  function Under(key: string, leaves: seq<Leaf>): (r: seq<Leaf>)
    ensures |r| == |leaves|
  {
    seq(|leaves|, i requires 0 <= i < |leaves| => Leaf([key] + leaves[i].path, leaves[i].value))
  }

  /** The number of string values in a document. */
  function StringCount(data: Json): nat
    decreases data, 1
  {
    match data
    case JObj(members) => MemberStringCount(members)
    case JList(items) => ItemStringCount(items)
    case JStr(_) => 1
    case JOther => 0
  }

  function ItemStringCount(items: seq<Json>): nat
    decreases items, 0
  {
    if items == [] then 0 else StringCount(items[0]) + ItemStringCount(items[1..])
  }

  function MemberStringCount(members: seq<(string, Json)>): nat
    decreases members, 0
  {
    if members == [] then 0
    else
      var (_, value) := members[0];
      assert value < members[0];
      StringCount(value) + MemberStringCount(members[1..])
  }

  /** The label that flattening has built by the time it reaches a leaf along
      `path`, having started with label `parentKey`. */
  function Label(parentKey: string, path: seq<string>): string
    decreases |path|
  {
    if path == [] then parentKey else Label(ChildKey(parentKey, path[0]), path[1..])
  }

  /** One labelled fragment per leaf, in order. */
  function Fragments(parentKey: string, leaves: seq<Leaf>): (r: seq<string>)
    ensures |r| == |leaves|
  {
    seq(|leaves|, i requires 0 <= i < |leaves| => Fragment(Label(parentKey, leaves[i].path), leaves[i].value))
  }

  lemma FragmentsAppend(parentKey: string, xs: seq<Leaf>, ys: seq<Leaf>)
    ensures Fragments(parentKey, xs + ys) == Fragments(parentKey, xs) + Fragments(parentKey, ys)
  {
    var fx, fy := Fragments(parentKey, xs), Fragments(parentKey, ys);
    var l, r := Fragments(parentKey, xs + ys), fx + fy;
    forall i | 0 <= i < |l| ensures l[i] == r[i] {
      var leaf := (xs + ys)[i];
      assert l[i] == Fragment(Label(parentKey, leaf.path), leaf.value);
      if i < |xs| {
        assert leaf == xs[i];
        assert r[i] == fx[i];
      } else {
        assert leaf == ys[i - |xs|];
        assert r[i] == fy[i - |xs|];
      }
    }
  }

  lemma FragmentsUnder(parentKey: string, key: string, leaves: seq<Leaf>)
    ensures Fragments(parentKey, Under(key, leaves)) == Fragments(ChildKey(parentKey, key), leaves)
  {
    var u := Under(key, leaves);
    forall i | 0 <= i < |leaves|
      ensures Fragments(parentKey, u)[i] == Fragments(ChildKey(parentKey, key), leaves)[i]
    {
      assert ([key] + leaves[i].path)[1..] == leaves[i].path;
    }
  }

  /** The flattened text is the in-order concatenation of one fragment per
      string leaf, each labelled by the keys on the path to that leaf: no
      leaf is lost or repeated, and the number of fragments is the number of
      string values. */
  lemma {:induction false} FlattenIsFragments(data: Json, parentKey: string)
    ensures Flatten(data, parentKey) == Concat(Fragments(parentKey, Leaves(data)))
    ensures |Fragments(parentKey, Leaves(data))| == StringCount(data)
    decreases data, 1
  {
    match data
    case JObj(members) => MembersAreFragments(members, parentKey);
    case JList(items) => ItemsAreFragments(items, parentKey);
    case JStr(s) =>
      assert Fragments(parentKey, Leaves(data)) == [Fragment(parentKey, s)];
    case JOther =>
      assert Fragments(parentKey, []) == [];
  }

  lemma {:induction false} ItemsAreFragments(items: seq<Json>, parentKey: string)
    ensures FlattenItems(items, parentKey) == Concat(Fragments(parentKey, ItemLeaves(items)))
    ensures |ItemLeaves(items)| == ItemStringCount(items)
    decreases items, 0
  {
    if items == [] {
      assert Fragments(parentKey, []) == [];
    } else {
      FlattenIsFragments(items[0], parentKey);
      ItemsAreFragments(items[1..], parentKey);
      FragmentsAppend(parentKey, Leaves(items[0]), ItemLeaves(items[1..]));
      ConcatAppend(Fragments(parentKey, Leaves(items[0])), Fragments(parentKey, ItemLeaves(items[1..])));
    }
  }

  lemma {:induction false} MembersAreFragments(members: seq<(string, Json)>, parentKey: string)
    ensures FlattenMembers(members, parentKey) == Concat(Fragments(parentKey, MemberLeaves(members)))
    ensures |MemberLeaves(members)| == MemberStringCount(members)
    decreases members, 0
  {
    if members == [] {
      assert Fragments(parentKey, []) == [];
    } else {
      var (key, value) := members[0];
      assert value < members[0];
      FlattenIsFragments(value, ChildKey(parentKey, key));
      MembersAreFragments(members[1..], parentKey);
      FragmentsUnder(parentKey, key, Leaves(value));
      FragmentsAppend(parentKey, Under(key, Leaves(value)), MemberLeaves(members[1..]));
      ConcatAppend(Fragments(parentKey, Under(key, Leaves(value))), Fragments(parentKey, MemberLeaves(members[1..])));
    }
  }

  /** With keys that have no surrounding whitespace, the label of a path is
      the keys joined by single spaces behind the starting label. */
  lemma {:induction false} LabelOfCleanPath(parentKey: string, path: seq<string>)
    requires Trimmed(parentKey)
    requires forall i :: 0 <= i < |path| ==> Trimmed(path[i])
    ensures Label(parentKey, path) == Join(" ", [parentKey] + path)
    decreases |path|
  {
    if path != [] {
      StripJoined(parentKey, path[0]);
      LabelOfCleanPath(parentKey + " " + path[0], path[1..]);
      var rest := path[1..];
      if rest == [] {
        assert [parentKey] + path == [parentKey, path[0]];
      } else {
        assert ([parentKey + " " + path[0]] + rest)[1..] == rest;
        assert ([parentKey] + path)[1..] == path;
        assert path == [path[0]] + rest;
      }
    }
  }

  /** A key that is empty or all whitespace is absorbed by strip: under a
      clean label the child label is the label itself, and at the top of a
      page it is empty. */
  lemma BlankKeyAbsorbed(parentKey: string, key: string)
    requires forall i :: 0 <= i < |key| ==> IsSpace(key[i])
    ensures Trimmed(parentKey) ==> ChildKey(parentKey, key) == parentKey
    ensures parentKey == "" ==> ChildKey(parentKey, key) == ""
  {
    var t := parentKey + " " + key;
    assert forall k :: |parentKey| <= k < |t| ==> IsSpace(t[k]);
    if Trimmed(parentKey) {
      assert t[0] == parentKey[0];
      assert StripStart(t, 0) == 0;
      assert t[|parentKey| - 1] == parentKey[|parentKey| - 1];
      assert StripEnd(t, 0, |t|) == |parentKey|;
      assert t[..|parentKey|] == parentKey;
    }
    if parentKey == "" {
      assert StripStart(t, 0) == |t|;
    }
  }

  /** At the top of a page the label is empty, so a leaf reached through
      clean keys k1 .. kn is emitted as exactly "k1 .. kn: value | ", and a
      string at the very top as ": value | ". */
  lemma {:induction false} TopLevelFragment(leaf: Leaf)
    requires forall i :: 0 <= i < |leaf.path| ==> Trimmed(leaf.path[i])
    ensures Fragments("", [leaf]) == [Join(" ", leaf.path) + ": " + leaf.value + " | "]
  {
    var path := leaf.path;
    if path != [] {
      StripSpaceThen(path[0]);
      assert "" + " " + path[0] == " " + path[0];
      LabelOfCleanPath(path[0], path[1..]);
      assert [path[0]] + path[1..] == path;
    }
  }

  /** A number, boolean or null anywhere in a list adds nothing and is no error. */
  lemma ScalarItemContributesNothing(xs: seq<Json>, ys: seq<Json>, parentKey: string)
    ensures Flatten(JList(xs + [JOther] + ys), parentKey) == Flatten(JList(xs + ys), parentKey)
  {
    FlattenItemsAppend(xs + [JOther], ys, parentKey);
    FlattenItemsAppend(xs, [JOther], parentKey);
    FlattenItemsAppend(xs, ys, parentKey);
    assert FlattenItems([JOther], parentKey) == "";
  }

  /** A member whose value is a number, boolean or null adds nothing and is no error. */
  lemma ScalarMemberContributesNothing(xs: seq<(string, Json)>, key: string, ys: seq<(string, Json)>, parentKey: string)
    ensures Flatten(JObj(xs + [(key, JOther)] + ys), parentKey) == Flatten(JObj(xs + ys), parentKey)
  {
    var m: seq<(string, Json)> := [(key, JOther)];
    assert FlattenMembers(m, parentKey) == "" by {
      assert m[1..] == [];
      assert Flatten(JOther, ChildKey(parentKey, key)) == "";
    }
    FlattenMembersAppend(xs + m, ys, parentKey);
    FlattenMembersAppend(xs, m, parentKey);
    FlattenMembersAppend(xs, ys, parentKey);
  }

  // ================================================================ preprocess_text

  /** Python's string.punctuation. */
  const Punctuation: string := "!\"#$%&'()*+,-./:;<=>?@[\\]^_`{|}~"

  /** Membership in string.punctuation, as the four ASCII ranges it covers. */
  predicate IsPunctuation(c: char) {
    ('!' <= c <= '/') || (':' <= c <= '@') || ('[' <= c <= '`') || ('{' <= c <= '~')
  }

  lemma PunctuationRanges()
    ensures forall c :: IsPunctuation(c) <==> c in Punctuation
  {
  }

  /** text.translate(str.maketrans('', '', string.punctuation)) */
  function RemovePunctuation(s: string): string {
    if s == [] then "" else (if IsPunctuation(s[0]) then "" else [s[0]]) + RemovePunctuation(s[1..])
  }

  /** Removing punctuation keeps exactly the characters that are not punctuation. */
  lemma {:induction false} RemovePunctuationChars(s: string)
    ensures forall c :: c in RemovePunctuation(s) <==> c in s && !IsPunctuation(c)
    ensures IsSubsequence(RemovePunctuation(s), s)
  {
    if s != [] {
      RemovePunctuationChars(s[1..]);
      assert s == [s[0]] + s[1..];
      if IsPunctuation(s[0]) {
        assert RemovePunctuation(s) == RemovePunctuation(s[1..]);
        SubsequenceSkip(RemovePunctuation(s[1..]), s);
      } else {
        var r := RemovePunctuation(s);
        assert r == [s[0]] + RemovePunctuation(s[1..]);
        assert r[1..] == RemovePunctuation(s[1..]);
      }
    }
  }

  lemma {:induction false} RemovePunctuationAppend(a: string, b: string)
    ensures RemovePunctuation(a + b) == RemovePunctuation(a) + RemovePunctuation(b)
  {
    if a == [] {
      assert a + b == b;
    } else {
      assert (a + b)[1..] == a[1..] + b;
      RemovePunctuationAppend(a[1..], b);
    }
  }

  lemma {:induction false} RemovePunctuationKeeps(w: string)
    requires forall i :: 0 <= i < |w| ==> !IsPunctuation(w[i])
    ensures RemovePunctuation(w) == w
  {
    if w != [] {
      RemovePunctuationKeeps(w[1..]);
      assert w == [w[0]] + w[1..];
    }
  }

  lemma RemovePunctuationChar(c: char)
    ensures RemovePunctuation([c]) == if IsPunctuation(c) then [] else [c]
  {
    assert [c][1..] == [];
  }

  /** The two separators of a fragment lose their punctuation and keep their spaces. */
  lemma SeparatorsCleaned()
    ensures RemovePunctuation(": ") == " "
    ensures RemovePunctuation(" | ") == "  "
  {
    RemovePunctuationAppend([':'], [' ']);
    RemovePunctuationChar(':');
    RemovePunctuationChar(' ');
    assert ": " == [':'] + [' '];
    RemovePunctuationAppend([' '] + ['|'], [' ']);
    RemovePunctuationAppend([' '], ['|']);
    RemovePunctuationChar('|');
    assert " | " == [' '] + ['|'] + [' '];
  }

  /** Cleaning a labelled fragment deletes its ':' and '|' separators and
      leaves the spaces around them. */
  lemma FragmentCleaned(name: string, value: string)
    ensures RemovePunctuation(Fragment(name, value))
      == RemovePunctuation(name) + " " + RemovePunctuation(value) + "  "
  {
    var colon, bar := ": ", " | ";
    assert Fragment(name, value) == name + colon + value + bar;
    RemovePunctuationAppend(name + colon + value, bar);
    RemovePunctuationAppend(name + colon, value);
    RemovePunctuationAppend(name, colon);
    SeparatorsCleaned();
  }

  /** [word for word in tokens if word not in stop_words] */
  function RemoveStopwords(tokens: seq<string>, stopWords: set<string>): (r: seq<string>)
    ensures forall t :: t in r <==> t in tokens && t !in stopWords
    ensures IsSubsequence(r, tokens)
  {
    if tokens == [] then []
    else
      var rest := RemoveStopwords(tokens[1..], stopWords);
      assert forall t :: t in tokens[1..] ==> t in tokens;
      if tokens[0] in stopWords then
        assert rest != [] ==> rest[0] in rest && rest[0] != tokens[0];
        rest
      else
        assert ([tokens[0]] + rest)[1..] == rest;
        [tokens[0]] + rest
  }

  /** The filter keeps every occurrence of a word that is not a stopword:
      a repeated word is kept as often as it occurs. */
  lemma {:induction false} RemoveStopwordsCounts(tokens: seq<string>, stopWords: set<string>)
    ensures forall t :: t !in stopWords ==> multiset(RemoveStopwords(tokens, stopWords))[t] == multiset(tokens)[t]
  {
    if tokens != [] {
      RemoveStopwordsCounts(tokens[1..], stopWords);
      var rest := RemoveStopwords(tokens[1..], stopWords);
      assert tokens == [tokens[0]] + tokens[1..];
      assert multiset(tokens) == multiset{tokens[0]} + multiset(tokens[1..]);
      if tokens[0] !in stopWords {
        assert RemoveStopwords(tokens, stopWords) == [tokens[0]] + rest;
        assert multiset([tokens[0]] + rest) == multiset{tokens[0]} + multiset(rest);
      }
    }
  }

  /** The text after lower() and punctuation removal, before tokenising. */
  function Cleaned(text: string): string {
    RemovePunctuation(Lower(text))
  }

  /** The tokens preprocess_text keeps, in order. */
  function KeptTokens(text: string, stopWords: set<string>): seq<string> {
    RemoveStopwords(Split(Cleaned(text)), stopWords)
  }

  /** preprocess_text(text), with NLTK's English stopword list as a parameter. */
  function PreprocessText(text: string, stopWords: set<string>): string {
    Join(" ", KeptTokens(text, stopWords))
  }

  /** A character that can survive cleaning: no upper-case letter, no punctuation. */
  predicate CleanChar(c: char) {
    !IsUpper(c) && !IsPunctuation(c)
  }

  predicate CleanText(s: string) {
    forall c :: c in s ==> CleanChar(c)
  }

  lemma {:induction false} SplitKeepsClean(s: string)
    requires CleanText(s)
    ensures forall i :: 0 <= i < |Split(s)| ==> CleanText(Split(s)[i])
    decreases |s|
  {
    if s == [] {
    } else if IsSpace(s[0]) {
      assert forall c :: c in s[1..] ==> c in s;
      SplitKeepsClean(s[1..]);
    } else {
      var n := WordLength(s);
      assert forall c :: c in s[..n] ==> c in s;
      assert forall c :: c in s[n..] ==> c in s;
      SplitKeepsClean(s[n..]);
      assert Split(s) == [s[..n]] + Split(s[n..]);
    }
  }

  lemma {:induction false} JoinKeepsClean(ts: seq<string>)
    requires forall i :: 0 <= i < |ts| ==> CleanText(ts[i])
    ensures CleanText(Join(" ", ts))
  {
    if |ts| > 1 {
      JoinKeepsClean(ts[1..]);
      assert CleanChar(' ');
      var r := ts[0] + " " + Join(" ", ts[1..]);
      assert forall c :: c in r ==> c in ts[0] || c == ' ' || c in Join(" ", ts[1..]);
    }
  }

  lemma KeptTokensAreWords(text: string, stopWords: set<string>)
    ensures var kept := KeptTokens(text, stopWords);
      forall i :: 0 <= i < |kept| ==> CleanText(kept[i]) && kept[i] != [] && NoSpace(kept[i])
  {
    var kept := KeptTokens(text, stopWords);
    RemovePunctuationChars(Lower(text));
    assert CleanText(Cleaned(text));
    SplitKeepsClean(Cleaned(text));
    forall i | 0 <= i < |kept| ensures CleanText(kept[i]) && kept[i] != [] && NoSpace(kept[i]) {
      assert kept[i] in kept;
    }
  }

  /** No upper-case letter and no punctuation character survives
      preprocess_text, the ':' and '|' that flattening inserted included. */
  lemma PreprocessTextIsClean(text: string, stopWords: set<string>)
    ensures CleanText(PreprocessText(text, stopWords))
  {
    KeptTokensAreWords(text, stopWords);
    JoinKeepsClean(KeptTokens(text, stopWords));
  }

  /** Splitting the result of preprocess_text on whitespace gives back
      exactly the kept tokens: the cleaned text's tokens minus the stopwords,
      in their original order. */
  lemma PreprocessTextTokens(text: string, stopWords: set<string>)
    ensures var tokens := Split(PreprocessText(text, stopWords));
      && tokens == KeptTokens(text, stopWords)
      && (forall t :: t in tokens <==> t in Split(Cleaned(text)) && t !in stopWords)
      && IsSubsequence(tokens, Split(Cleaned(text)))
  {
    KeptTokensAreWords(text, stopWords);
    SplitJoin(KeptTokens(text, stopWords));
  }

  /** The kept tokens are separated by exactly one space, with none at either
      end, and the result is empty exactly when every token is a stopword
      (or there was no token at all). */
  lemma PreprocessTextSpacing(text: string, stopWords: set<string>)
    ensures var r := PreprocessText(text, stopWords);
      && SingleSpaced(r)
      && (r == "" <==> forall t :: t in Split(Cleaned(text)) ==> t in stopWords)
  {
    var kept := KeptTokens(text, stopWords);
    KeptTokensAreWords(text, stopWords);
    JoinSingleSpaced(kept);
    if kept != [] {
      assert kept[0] in kept;
    }
  }

  // ================================================================ chunking

  /** The default max_chunk_size. */
  const MaxChunkSize: int := 512

  /** How many values range(0, n, size) yields for a positive size. */
  function WindowCount(n: nat, size: nat): nat
    requires size > 0
    decreases n
  {
    if n == 0 then 0 else if n <= size then 1 else 1 + WindowCount(n - size, size)
  }

  /** [text[i:i+size] for i in range(0, len(text), size)] for a positive size:
      the j-th element is the slice starting at j * size. */
  function Windows(text: string, size: nat): seq<string>
    requires size > 0
  {
    seq(WindowCount(|text|, size), j requires 0 <= j < WindowCount(|text|, size) => Slice(text, j * size, j * size + size))
  }

  /** The chunking comprehension of preprocess_entire_page for any int
      max_chunk_size: a step of 0 makes range raise ValueError, and a negative
      step gives an empty range. */
  function ChunkText(text: string, maxChunkSize: int): (r: Result<seq<string>>)
    ensures r.Err? <==> maxChunkSize == 0
    ensures r.Err? ==> r.error == ValueError
    ensures maxChunkSize < 0 ==> r == Ok([])
  {
    if maxChunkSize == 0 then Err(ValueError)
    else if maxChunkSize < 0 then Ok([])
    else Ok(Windows(text, maxChunkSize))
  }

  lemma MulStep(k: int, size: int)
    ensures (k + 1) * size == k * size + size
  {
  }

  lemma MulMonotone(a: int, b: int, size: int)
    requires a <= b && size >= 0
    ensures a * size <= b * size
  {
  }

  /** Rounding up: the only k with (k - 1) * size < n <= k * size. */
  lemma CeilDiv(n: int, size: int, k: int)
    requires size > 0 && (k - 1) * size < n <= k * size
    ensures (n + size - 1) / size == k
  {
    var a := n + size - 1;
    var d := a / size;
    MulStep(k - 1, size);
    MulStep(d, size);
    MulStep(k, size);
    if d < k {
      MulMonotone(d + 1, k, size);
    } else if d > k {
      MulMonotone(k + 1, d, size);
    }
  }

  /** range(0, n, size) has ceil(n / size) values. */
  lemma {:induction false} WindowCountBounds(n: nat, size: nat)
    requires size > 0
    ensures var k := WindowCount(n, size); (k - 1) * size < n <= k * size
    ensures WindowCount(n, size) == (n + size - 1) / size
    decreases n
  {
    var k := WindowCount(n, size);
    if n > size {
      WindowCountBounds(n - size, size);
      MulStep(k - 1, size);
      MulStep(k - 2, size);
    }
    CeilDiv(n, size, k);
  }

  /** Past the first window, the windows of a text are those of the rest of it. */
  lemma WindowsStep(text: string, size: nat)
    requires size > 0 && |text| > size
    ensures Windows(text, size) == [text[..size]] + Windows(text[size..], size)
  {
    var l, t := Windows(text, size), Windows(text[size..], size);
    forall j | 0 <= j < |t| ensures l[j + 1] == t[j] {
      MulStep(j, size);
    }
    assert l[0] == text[..size];
  }

  /** Joining the chunks gives back exactly the text that was cut. */
  lemma {:induction false} WindowsConcat(text: string, size: nat)
    requires size > 0
    ensures Concat(Windows(text, size)) == text
    decreases |text|
  {
    if |text| == 0 {
      assert Windows(text, size) == [];
    } else if |text| <= size {
      assert Windows(text, size) == [text];
    } else {
      WindowsStep(text, size);
      WindowsConcat(text[size..], size);
      assert text == text[..size] + text[size..];
    }
  }

  /** Every chunk is the piece of the text at offset j * size, and it is not empty. */
  lemma WindowsAt(text: string, size: nat, j: nat)
    requires size > 0 && j < WindowCount(|text|, size)
    ensures j * size < |text|
    ensures var w := Windows(text, size)[j];
      1 <= |w| <= size && w == text[j * size..j * size + |w|]
    ensures j + 1 < WindowCount(|text|, size) ==> |Windows(text, size)[j]| == size
  {
    var k := WindowCount(|text|, size);
    WindowCountBounds(|text|, size);
    var lo := j * size;
    var hi := lo + size;
    MulMonotone(j, k - 1, size);
    assert lo < |text|;
    var w := Windows(text, size)[j];
    assert w == Slice(text, lo, hi);
    if hi <= |text| {
      assert w == text[lo..hi];
    } else {
      assert w == text[lo..];
    }
    if j + 1 < k {
      MulMonotone(j + 1, k - 1, size);
      MulStep(j, size);
      assert hi <= |text|;
    }
  }

  /** Every chunk holds between 1 and size characters, every chunk but the
      last exactly size, and there are ceil(len / size) chunks, so an empty
      text gives none. */
  lemma WindowsBounds(text: string, size: nat)
    requires size > 0
    ensures var r := Windows(text, size);
      && |r| == (|text| + size - 1) / size
      && (|r| - 1) * size < |text| <= |r| * size
      && (r == [] <==> text == [])
      && (forall j :: 0 <= j < |r| ==> 1 <= |r[j]| <= size)
      && (forall j :: 0 <= j < |r| - 1 ==> |r[j]| == size)
  {
    WindowCountBounds(|text|, size);
    forall j | 0 <= j < WindowCount(|text|, size) {
      WindowsAt(text, size, j);
    }
  }

  /** Cutting the joined chunks again gives the same chunks. */
  lemma RechunkingIsStable(text: string, size: nat)
    requires size > 0
    ensures Windows(Concat(Windows(text, size)), size) == Windows(text, size)
  {
    WindowsConcat(text, size);
  }

  /** Cutting any one chunk again with the same size gives that chunk alone. */
  lemma ChunkRechunked(text: string, size: nat, j: nat)
    requires size > 0 && j < |Windows(text, size)|
    ensures Windows(Windows(text, size)[j], size) == [Windows(text, size)[j]]
  {
    var w := Windows(text, size)[j];
    WindowsAt(text, size, j);
    assert WindowCount(|w|, size) == 1;
    assert Windows(w, size)[0] == Slice(w, 0, size) == w;
  }

  // ================================================================ preprocess_entire_page

  /** preprocess_entire_page once the JSON file has been loaded. */
  function PreprocessPage(data: Json, stopWords: set<string>, maxChunkSize: int): Result<seq<string>> {
    ChunkText(PreprocessText(Flatten(data, ""), stopWords), maxChunkSize)
  }

  /** Chunks of a clean text are clean. */
  lemma WindowsKeepClean(text: string, size: nat)
    requires size > 0 && CleanText(text)
    ensures forall j :: 0 <= j < |Windows(text, size)| ==> CleanText(Windows(text, size)[j])
  {
    forall j | 0 <= j < |Windows(text, size)| ensures CleanText(Windows(text, size)[j]) {
      WindowsAt(text, size, j);
      var w := Windows(text, size)[j];
      assert forall c :: c in w ==> c in text;
    }
  }

  /** For a positive chunk size the page is cut without error, the chunks
      join back into the preprocessed text, and none of them is empty, longer
      than the chunk size, or holds an upper-case letter or a punctuation
      character. */
  lemma PreprocessPageSpec(data: Json, stopWords: set<string>, maxChunkSize: int)
    requires maxChunkSize > 0
    ensures var r := PreprocessPage(data, stopWords, maxChunkSize);
      && r.Ok?
      && Concat(r.value) == PreprocessText(Flatten(data, ""), stopWords)
      && (forall j :: 0 <= j < |r.value| ==> 1 <= |r.value[j]| <= maxChunkSize && CleanText(r.value[j]))
  {
    var text := PreprocessText(Flatten(data, ""), stopWords);
    PreprocessTextIsClean(Flatten(data, ""), stopWords);
    WindowsConcat(text, maxChunkSize);
    WindowsBounds(text, maxChunkSize);
    WindowsKeepClean(text, maxChunkSize);
  }

  /** With its default max_chunk_size, preprocess_entire_page always
      succeeds and every chunk holds between 1 and 512 characters. */
  lemma DefaultChunkSize(data: Json, stopWords: set<string>)
    ensures var r := PreprocessPage(data, stopWords, MaxChunkSize);
      r.Ok? && forall j :: 0 <= j < |r.value| ==> 1 <= |r.value[j]| <= 512
  {
    PreprocessPageSpec(data, stopWords, MaxChunkSize);
  }

  // ================================================================ a worked page

  lemma FlattenSingleMember(key: string, value: Json, parentKey: string)
    ensures Flatten(JObj([(key, value)]), parentKey) == Flatten(value, ChildKey(parentKey, key))
  {
    var m := [(key, value)];
    assert m[0] == (key, value) && m[1..] == [];
    assert FlattenMembers(m, parentKey)
      == Flatten(value, ChildKey(parentKey, key)) + FlattenMembers([], parentKey);
    assert Flatten(value, ChildKey(parentKey, key)) + "" == Flatten(value, ChildKey(parentKey, key));
  }

  /** A key holding a key holding a string flattens to one fragment labelled
      with both keys. */
  lemma NestedStringFlattened(outer: string, inner: string, value: string)
    requires Trimmed(outer) && Trimmed(inner)
    ensures Flatten(JObj([(outer, JObj([(inner, JStr(value))]))]), "") == Fragment(outer + " " + inner, value)
  {
    StripSpaceThen(outer);
    assert "" + " " + outer == " " + outer;
    StripJoined(outer, inner);
    FlattenSingleMember(outer, JObj([(inner, JStr(value))]), "");
    FlattenSingleMember(inner, JStr(value), outer);
  }

  /** One punctuation character between two strings disappears. */
  lemma RemovePunctuationDrops(x: string, c: char, y: string)
    requires IsPunctuation(c)
    ensures RemovePunctuation(x + [c] + y) == RemovePunctuation(x) + RemovePunctuation(y)
  {
    RemovePunctuationAppend(x + [c], y);
    RemovePunctuationAppend(x, [c]);
    RemovePunctuationChar(c);
    assert RemovePunctuation(x) + [] == RemovePunctuation(x);
  }

  predicate LowercaseLetters(w: string) {
    w != [] && forall i :: 0 <= i < |w| ==> 'a' <= w[i] <= 'z'
  }

  /** A non-empty word of lower-case ASCII letters is trimmed, has no
      whitespace and is left alone by lower-casing and by punctuation removal. */
  lemma LowercaseWord(w: string)
    requires LowercaseLetters(w)
    ensures Trimmed(w) && NoSpace(w) && Lower(w) == w && RemovePunctuation(w) == w
    ensures Cleaned(w) == w
  {
    assert Lower(w) == w;
    RemovePunctuationKeeps(w);
  }

  /** An address user@host.domain of lower-case words cleans to the three
      words run together. */
  lemma AddressCleaned(address: string, user: string, host: string, domain: string)
    requires LowercaseLetters(user) && LowercaseLetters(host) && LowercaseLetters(domain)
    requires address == user + "@" + host + "." + domain
    ensures Cleaned(address) == user + host + domain
  {
    LowercaseWord(user);
    LowercaseWord(host);
    LowercaseWord(domain);
    assert Lower(address) == address by {
      LowerAppend(user + "@" + host + ".", domain);
      LowerAppend(user + "@" + host, ".");
      LowerAppend(user + "@", host);
      LowerAppend(user, "@");
      assert Lower("@") == "@" && Lower(".") == ".";
    }
    RemovePunctuationDrops(user + "@" + host, '.', domain);
    RemovePunctuationDrops(user, '@', host);
  }

  /** Cleaning two strings joined by one space cleans each of them. */
  lemma CleanedSpaced(a: string, b: string)
    ensures Cleaned(a + " " + b) == Cleaned(a) + " " + Cleaned(b)
  {
    LowerAppend(a + " ", b);
    LowerAppend(a, " ");
    assert Lower(" ") == " ";
    RemovePunctuationAppend(Lower(a) + " ", Lower(b));
    RemovePunctuationAppend(Lower(a), " ");
    RemovePunctuationChar(' ');
  }

  /** Cleaning a fragment cleans its label and its value and keeps the spaces
      of the separators. */
  lemma FragmentLowered(name: string, value: string)
    ensures Cleaned(Fragment(name, value)) == Cleaned(name) + " " + Cleaned(value) + "  "
  {
    var colon, bar := ": ", " | ";
    assert Fragment(name, value) == name + colon + value + bar;
    LowerAppend(name + colon + value, bar);
    LowerAppend(name + colon, value);
    LowerAppend(name, colon);
    assert Lower(colon) == colon && Lower(bar) == bar;
    assert Lower(Fragment(name, value)) == Fragment(Lower(name), Lower(value));
    FragmentCleaned(Lower(name), Lower(value));
  }

  lemma {:induction false} NoStopwordRemoved(words: seq<string>, stopWords: set<string>)
    requires forall i :: 0 <= i < |words| ==> words[i] !in stopWords
    ensures RemoveStopwords(words, stopWords) == words
  {
    if words != [] {
      NoStopwordRemoved(words[1..], stopWords);
      assert words == [words[0]] + words[1..];
    }
  }

  lemma JoinThree(a: string, b: string, c: string)
    ensures Join(" ", [a, b, c]) == a + " " + b + " " + c
  {
    var words := [a, b, c];
    assert words[1..] == [b, c];
    assert words[1..][1..] == [c];
    assert Join(" ", words[1..]) == b + " " + c;
  }

  /** A text that cleans to non-stopword words joined by single spaces, plus
      trailing spaces, preprocesses to the join of those words. */
  lemma CleanWordsPreprocessed(x: string, words: seq<string>, stopWords: set<string>)
    requires Cleaned(x) == Join(" ", words) + "  "
    requires forall i :: 0 <= i < |words| ==> words[i] != [] && NoSpace(words[i]) && words[i] !in stopWords
    ensures PreprocessText(x, stopWords) == Join(" ", words)
  {
    var joined, spaces := Join(" ", words), "  ";
    assert |spaces| == 2 && IsSpace(spaces[0]) && IsSpace(spaces[1]);
    SplitAppendSpaces(joined, spaces);
    SplitJoin(words);
    assert Split(Cleaned(x)) == words;
    NoStopwordRemoved(words, stopWords);
    assert KeptTokens(x, stopWords) == words;
  }

  lemma ThreeWords(a: string, b: string, c: string, stopWords: set<string>)
    requires a != [] && NoSpace(a) && a !in stopWords
    requires b != [] && NoSpace(b) && b !in stopWords
    requires c != [] && NoSpace(c) && c !in stopWords
    ensures var words := [a, b, c];
      forall i :: 0 <= i < |words| ==> words[i] != [] && NoSpace(words[i]) && words[i] !in stopWords
  {
  }

  /** A page made of a key holding a key holding a string, where cleaning
      leaves both keys alone and turns the string into one word, flattens
      to one fragment and preprocesses to the two keys and that word. */
  lemma NestedStringPage(doc: Json, outer: string, inner: string, value: string, word: string, stopWords: set<string>)
    requires doc == JObj([(outer, JObj([(inner, JStr(value))]))])
    requires Trimmed(outer) && NoSpace(outer) && Cleaned(outer) == outer && outer !in stopWords
    requires Trimmed(inner) && NoSpace(inner) && Cleaned(inner) == inner && inner !in stopWords
    requires word != [] && NoSpace(word) && Cleaned(value) == word && word !in stopWords
    ensures Flatten(doc, "") == outer + " " + inner + ": " + value + " | "
    ensures PreprocessText(Flatten(doc, ""), stopWords) == outer + " " + inner + " " + word
  {
    var x := Flatten(doc, "");
    NestedStringFlattened(outer, inner, value);
    FragmentLowered(outer + " " + inner, value);
    CleanedSpaced(outer, inner);
    JoinThree(outer, inner, word);
    assert Cleaned(x) == Join(" ", [outer, inner, word]) + "  ";
    ThreeWords(outer, inner, word, stopWords);
    CleanWordsPreprocessed(x, [outer, inner, word], stopWords);
  }

  /** The words of the contact page are lower-case ASCII words. */
  lemma ContactEmailWords()
    ensures LowercaseLetters("contact") && LowercaseLetters("email") && LowercaseLetters("csgmuedu")
  {
  }

  /** The address of the contact page cleans to one word. */
  lemma ContactEmailAddress()
    ensures Cleaned("cs@gmu.edu") == "csgmuedu"
  {
    AddressCleaned("cs@gmu.edu", "cs", "gmu", "edu");
  }

  /** The page {"contact": {"email": "cs@gmu.edu"}} flattens to
      "contact email: cs@gmu.edu | " and preprocesses to
      "contact email csgmuedu": the ':' after the label goes as well as the
      '@' and '.' of the address. The page and its strings are parameters
      fixed by the requires clauses, not literals, so that the verifier does
      not evaluate the string functions on them one character at a time. */
  lemma ContactEmailPage(doc: Json, contact: string, email: string, address: string, stopWords: set<string>)
    requires contact == "contact" && email == "email" && address == "cs@gmu.edu"
    requires doc == JObj([(contact, JObj([(email, JStr(address))]))])
    requires contact !in stopWords && email !in stopWords && "csgmuedu" !in stopWords
    ensures Flatten(doc, "") == contact + " " + email + ": " + address + " | "
    ensures PreprocessText(Flatten(doc, ""), stopWords) == contact + " " + email + " " + "csgmuedu"
  {
    var word := "csgmuedu";
    ContactEmailWords();
    ContactEmailAddress();
    LowercaseWord(contact);
    LowercaseWord(email);
    LowercaseWord(word);
    NestedStringPage(doc, contact, email, address, word, stopWords);
  }
}
