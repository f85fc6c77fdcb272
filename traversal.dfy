/**
 * The directory walk that finds store copies and groups them by identity.
 *
 * The walk is depth-first over an ordered tree. It carries a position label,
 * inherited from the enclosing directory and overwritten from that point on
 * whenever an entry's name contains "repositories". Every file that is a
 * wrapped SQLite store is pushed, with the label current at that moment, onto
 * the list kept for its identity in a shared map.
 *
 * The specification is split in two: `DiscoverEntries` lists the detected
 * stores in the order the walk meets them, and `AppendAll` folds that list
 * into the map. `Traverse` interleaves the two as the source does and is
 * proved equal to their composition.
 */
module Traversal {
  import opened Wrappers
  import opened JsText
  import opened StoreFormat

  /** A directory entry; the order of `children` is the order the directory yields them. */
  datatype Entry = File(name: string, contents: seq<byte>) | Dir(name: string, children: seq<Entry>)

  /** One copy of a store: its rewritten path and the position label it was found under. */
  datatype StoreFile = StoreFile(path: string, positionName: Option<string>)

  /** A detected copy together with the identity it is grouped under. */
  datatype Found = Found(key: string, file: StoreFile)

  /** The substring that makes a name a position marker. */
  const Marker: string := "repositories"
  /** The suffix whose preceding text is the position label. */
  const MarkerSuffix: string := "-repositories"
  /** The extension appended to every stored path. */
  const Extension: string := ".sqlite"

  /** `path.join(parent, name)`, as plain concatenation with a separator: the parent, one
      '/', then the name. */
  function Join(parent: string, name: string): (r: string)
    ensures |r| == |parent| + 1 + |name|
    ensures r[..|parent|] == parent && r[|parent|] == '/' && r[|parent| + 1..] == name
  {
    parent + "/" + name
  }

  predicate EndsWith(s: string, suffix: string) {
    |suffix| <= |s| && s[|s| - |suffix|..] == suffix
  }

  // ---------------------------------------------------------------------------
  // Labels

  /** The label in force after meeting an entry called `name`: a marker name sets it to the
      trimmed text before its first "-repositories"; any other name leaves it alone. */
  function NextLabel(position: Option<string>, name: string): (r: Option<string>)
    ensures !Includes(name, Marker) ==> r == position
    ensures Includes(name, Marker) ==> r.Some? && |r.value| <= |name|
    ensures Includes(name, Marker) && r.value != [] ==> !IsJsSpace(r.value[0]) && !IsJsSpace(r.value[|r.value| - 1])
  {
    if Includes(name, Marker) then Some(Trim(SplitHead(name, MarkerSuffix))) else position
  }

  /** "<prefix>-repositories<rest>" names position `prefix`, trimmed, whenever the prefix holds
      no earlier "-repositories" (it may contain '-' and even "repositories"). */
  lemma LabelOfMarkerName(position: Option<string>, prefix: string, rest: string)
    requires !Includes(prefix, MarkerSuffix)
    ensures NextLabel(position, prefix + MarkerSuffix + rest) == Some(Trim(prefix))
  {
    var name := prefix + MarkerSuffix + rest;
    assert MarkerSuffix == "-" + Marker;
    assert MarkerSuffix[1..] == Marker;
    assert name == (prefix + "-") + Marker + rest;
    IncludesInside(prefix + "-", Marker, rest);
    IndexOfAfter(prefix, MarkerSuffix, rest);
    assert name[..|prefix|] == prefix;
  }

  /** "<prefix>-repositories" names position `prefix`, trimmed. */
  lemma LabelOfMarkerDir(position: Option<string>, prefix: string)
    requires !Includes(prefix, MarkerSuffix)
    ensures NextLabel(position, prefix + MarkerSuffix) == Some(Trim(prefix))
  {
    assert prefix + MarkerSuffix + "" == prefix + MarkerSuffix;
    LabelOfMarkerName(position, prefix, "");
  }

  /** A prefix with hyphens of its own is kept whole: "eu-west-repositories" names "eu-west". */
  lemma LabelOfHyphenatedPosition(position: Option<string>)
    ensures NextLabel(position, "eu-west" + MarkerSuffix) == Some("eu-west")
  {
    TrimKeeps("eu-west");
    LabelOfMarkerDir(position, "eu-west");
  }

  /** A name containing "repositories" but not "-repositories" labels with the whole trimmed name. */
  lemma LabelOfBareMarker(position: Option<string>, name: string)
    requires Includes(name, Marker) && !Includes(name, MarkerSuffix)
    ensures NextLabel(position, name) == Some(Trim(name))
  {
  }

  /** The label in force after meeting the entries `es` of one directory, in order: the
      inherited one when no name is a marker, and the one the last name sets when that is one. */
  function LabelAfter(position: Option<string>, es: seq<Entry>): (r: Option<string>)
    ensures (forall i :: 0 <= i < |es| ==> !Includes(es[i].name, Marker)) ==> r == position
    ensures es != [] && Includes(es[|es| - 1].name, Marker) ==> r == NextLabel(None, es[|es| - 1].name)
    decreases |es|
  {
    if es == [] then position else LabelAfter(NextLabel(position, es[0].name), es[1..])
  }

  // ---------------------------------------------------------------------------
  // Discovery: the detected stores, in walk order

  /** What the walk records of a detected store: a path ending in ".sqlite" and an identity
      without NUL of at most 99 characters. */
  predicate Recorded(f: Found) {
    EndsWith(f.file.path, Extension) && '\0' !in f.key && |f.key| <= HeaderLength - 1
  }

  /** What a file contributes: nothing unless it is a store; otherwise its identity, and its
      full path with the first occurrence of its name replaced by that identity, plus ".sqlite". */
  function DetectFile(path: string, name: string, contents: seq<byte>, position: Option<string>): (r: seq<Found>)
    ensures |r| == if IsSQLiteFile(contents) then 1 else 0
    ensures r != [] ==> Recorded(r[0]) && r[0].key == GetFileName(contents) && r[0].file.positionName == position
  {
    if IsSQLiteFile(contents) then
      var key := GetFileName(contents);
      var stored := ReplaceFirst(path, name, key) + Extension;
      assert stored[|stored| - |Extension|..] == Extension;
      [Found(key, StoreFile(stored, position))]
    else []
  }

  /** The stores found in the entries `es` of directory `parent`, walked with the inherited
      label `position`, in the order the walk meets them. */
  function DiscoverEntries(parent: string, es: seq<Entry>, position: Option<string>): (r: seq<Found>)
    ensures |r| == |StoreImages(es)|
    decreases es, 1
  {
    if es == [] then []
    else
      var l := NextLabel(position, es[0].name);
      DiscoverEntry(parent, es[0], l) + DiscoverEntries(parent, es[1..], l)
  }

  /** The stores found at entry `e` of `parent`, given the label in force for it (already
      updated by `e`'s own name). */
  function DiscoverEntry(parent: string, e: Entry, position: Option<string>): (r: seq<Found>)
    ensures |r| == |EntryImages(e)|
    decreases e, 0
  {
    match e
    case File(name, contents) => DetectFile(Join(parent, name), name, contents, position)
    case Dir(name, children) => DiscoverEntries(Join(parent, name), children, position)
  }

  /** Every record the walk produces has a ".sqlite" path and a NUL-free identity of at most
      99 characters. */
  lemma {:induction false} DiscoveredAreRecorded(parent: string, es: seq<Entry>, position: Option<string>)
    ensures forall f :: f in DiscoverEntries(parent, es, position) ==> Recorded(f)
    decreases es
  {
    if es != [] {
      var l := NextLabel(position, es[0].name);
      if es[0].Dir? {
        DiscoveredAreRecorded(Join(parent, es[0].name), es[0].children, l);
      }
      DiscoveredAreRecorded(parent, es[1..], l);
    }
  }

  /** When the name occurs nowhere in the directory path, the rewrite swaps the last path
      segment for the identity. */
  lemma RewriteOfLastSegment(parent: string, name: string, key: string)
    requires '/' !in name && !Includes(parent, name)
    ensures ReplaceFirst(Join(parent, name), name, key) == Join(parent, key)
  {
    var s := Join(parent, name);
    var at := |parent| + 1;
    assert s[at..at + |name|] == name;
    assert MatchesAt(s, name, at);
    forall j: nat | j < at
      ensures !MatchesAt(s, name, j)
    {
      if j + |name| <= |parent| {
        assert s[j..j + |name|] == parent[j..j + |name|];
        assert !MatchesAt(parent, name, j);
      } else if j + |name| <= |s| {
        assert s[j..j + |name|][|parent| - j] == '/';
      }
    }
    assert IndexOf(s, name) == Some(at);
    assert s[..at] + key + s[at + |name|..] == parent + "/" + key;
  }

  /** But the rewrite replaces the FIRST occurrence of the name: when the directory path
      already contains it, the directory part is edited and the file segment is kept. */
  lemma RewriteOfEarlierOccurrence(parent: string, name: string, key: string)
    requires Includes(parent, name)
    ensures ReplaceFirst(Join(parent, name), name, key) == ReplaceFirst(parent, name, key) + "/" + name
  {
    ReplaceFirstExtend(parent, "/" + name, name, key);
    ConcatAssoc(parent, "/", name);
    ConcatAssoc(ReplaceFirst(parent, name, key), "/", name);
  }

  /** In the walk: a store file whose name occurs nowhere in its directory path is recorded at
      that directory, under its identity, with ".sqlite" appended. */
  lemma StoredPathOfStore(parent: string, name: string, contents: seq<byte>, position: Option<string>)
    requires IsSQLiteFile(contents) && '/' !in name && !Includes(parent, name)
    ensures DiscoverEntry(parent, File(name, contents), position)
         == [Found(GetFileName(contents), StoreFile(Join(parent, GetFileName(contents)) + Extension, position))]
  {
    RewriteOfLastSegment(parent, name, GetFileName(contents));
  }

  /** The marker rule applies to files too: a store file named "<prefix>-repositories..." is
      recorded under position `prefix`, trimmed, and that label stays in force after it. */
  lemma FileMarkerLabelsItself(parent: string, prefix: string, rest: string, contents: seq<byte>, position: Option<string>)
    requires !Includes(prefix, MarkerSuffix) && IsSQLiteFile(contents)
    ensures |DiscoverEntries(parent, [File(prefix + MarkerSuffix + rest, contents)], position)| == 1
    ensures DiscoverEntries(parent, [File(prefix + MarkerSuffix + rest, contents)], position)[0].file.positionName
         == Some(Trim(prefix))
    ensures LabelAfter(position, [File(prefix + MarkerSuffix + rest, contents)]) == Some(Trim(prefix))
  {
    var e := File(prefix + MarkerSuffix + rest, contents);
    LabelOfMarkerName(position, prefix, rest);
    DiscoverSingle(parent, e, position);
    assert LabelAfter(position, [e]) == LabelAfter(Some(Trim(prefix)), []);
  }

  /** Walking `a + b` is walking `a`, then walking `b` with the label `a` leaves behind. */
  lemma {:induction false} DiscoverSplit(parent: string, a: seq<Entry>, b: seq<Entry>, position: Option<string>)
    ensures DiscoverEntries(parent, a + b, position)
         == DiscoverEntries(parent, a, position) + DiscoverEntries(parent, b, LabelAfter(position, a))
    decreases |a|
  {
    if a == [] {
      assert a + b == b;
    } else {
      var x, rest := a[0], a[1..];
      var l := NextLabel(position, x.name);
      calc {
        DiscoverEntries(parent, a + b, position);
      == { assert a + b == [x] + (rest + b); }
        DiscoverEntries(parent, [x] + (rest + b), position);
      == { DiscoverCons(parent, x, rest + b, position); }
        DiscoverEntry(parent, x, l) + DiscoverEntries(parent, rest + b, l);
      == { DiscoverSplit(parent, rest, b, l); }
        DiscoverEntry(parent, x, l) + (DiscoverEntries(parent, rest, l) + DiscoverEntries(parent, b, LabelAfter(l, rest)));
      == { SeqAssoc(DiscoverEntry(parent, x, l), DiscoverEntries(parent, rest, l), DiscoverEntries(parent, b, LabelAfter(l, rest))); }
        DiscoverEntries(parent, a, position) + DiscoverEntries(parent, b, LabelAfter(position, a));
      }
    }
  }

  lemma SeqAssoc(x: seq<Found>, y: seq<Found>, z: seq<Found>)
    ensures x + (y + z) == (x + y) + z
  {
  }

  /** The walk of a directory starts with its first entry, walked with the label it sets. */
  lemma DiscoverCons(parent: string, x: Entry, rest: seq<Entry>, position: Option<string>)
    ensures DiscoverEntries(parent, [x] + rest, position)
         == DiscoverEntry(parent, x, NextLabel(position, x.name)) + DiscoverEntries(parent, rest, NextLabel(position, x.name))
    ensures LabelAfter(position, [x] + rest) == LabelAfter(NextLabel(position, x.name), rest)
  {
    assert ([x] + rest)[0] == x;
    assert ([x] + rest)[1..] == rest;
  }

  /** Entry `i` of a directory is walked with the label fixed by the inherited label and the
      NAMES of entries 0..i alone: nothing found inside an earlier subdirectory affects it, a
      later marker does not relabel it, and the entries after it continue from that label. */
  lemma SiblingLabel(parent: string, es: seq<Entry>, position: Option<string>, i: nat)
    requires i < |es|
    ensures DiscoverEntries(parent, es, position)
         == DiscoverEntries(parent, es[..i], position)
            + DiscoverEntry(parent, es[i], LabelAfter(position, es[..i + 1]))
            + DiscoverEntries(parent, es[i + 1..], LabelAfter(position, es[..i + 1]))
  {
    assert es == es[..i] + [es[i]] + es[i + 1..];
    assert es[..i + 1] == es[..i] + [es[i]];
    DiscoverAround(parent, es[..i], es[i], es[i + 1..], position);
  }

  lemma DiscoverAround(parent: string, a: seq<Entry>, e: Entry, c: seq<Entry>, position: Option<string>)
    ensures DiscoverEntries(parent, a + [e] + c, position)
         == DiscoverEntries(parent, a, position)
            + DiscoverEntry(parent, e, LabelAfter(position, a + [e]))
            + DiscoverEntries(parent, c, LabelAfter(position, a + [e]))
  {
    var l := LabelAfter(position, a);
    var l2 := NextLabel(l, e.name);
    DiscoverSplit(parent, a + [e], c, position);
    DiscoverSplit(parent, a, [e], position);
    LabelAfterSnoc(position, a, e);
    DiscoverSingle(parent, e, l);
    var x, y, z := DiscoverEntries(parent, a, position), DiscoverEntry(parent, e, l2), DiscoverEntries(parent, c, l2);
    assert DiscoverEntries(parent, a + [e], position) == x + y;
    assert DiscoverEntries(parent, a + [e] + c, position) == x + y + z;
  }

  lemma {:induction false} LabelAfterSnoc(position: Option<string>, es: seq<Entry>, e: Entry)
    ensures LabelAfter(position, es + [e]) == NextLabel(LabelAfter(position, es), e.name)
    decreases |es|
  {
    if es != [] {
      assert (es + [e])[1..] == es[1..] + [e];
      LabelAfterSnoc(NextLabel(position, es[0].name), es[1..], e);
    }
  }

  /** No name anywhere in the tree is a position marker. */
  predicate Unmarked(es: seq<Entry>)
    decreases es
  {
    forall i :: 0 <= i < |es| ==>
      !Includes(es[i].name, Marker) && (es[i].Dir? ==> Unmarked(es[i].children))
  }

  /** A subtree without markers gives every store in it the inherited label, exactly. */
  lemma {:induction false} UnmarkedInherits(parent: string, es: seq<Entry>, position: Option<string>)
    requires Unmarked(es)
    ensures forall f :: f in DiscoverEntries(parent, es, position) ==> f.file.positionName == position
    decreases es, 1
  {
    if es != [] {
      assert !Includes(es[0].name, Marker);
      UnmarkedEntryInherits(parent, es[0], position);
      assert Unmarked(es[1..]) by {
        forall i | 0 <= i < |es[1..]|
          ensures !Includes(es[1..][i].name, Marker) && (es[1..][i].Dir? ==> Unmarked(es[1..][i].children))
        {
          assert es[1..][i] == es[i + 1];
        }
      }
      UnmarkedInherits(parent, es[1..], position);
    }
  }

  lemma {:induction false} UnmarkedEntryInherits(parent: string, e: Entry, position: Option<string>)
    requires e.Dir? ==> Unmarked(e.children)
    ensures forall f :: f in DiscoverEntry(parent, e, position) ==> f.file.positionName == position
    decreases e, 0
  {
    if e.Dir? {
      UnmarkedInherits(Join(parent, e.name), e.children, position);
    }
  }

  /** The file images in the tree that pass the format check, in walk order. */
  function StoreImages(es: seq<Entry>): seq<seq<byte>>
    decreases es, 1
  {
    if es == [] then [] else EntryImages(es[0]) + StoreImages(es[1..])
  }

  function EntryImages(e: Entry): seq<seq<byte>>
    decreases e, 0
  {
    match e
    case File(_, contents) => if IsSQLiteFile(contents) then [contents] else []
    case Dir(_, children) => StoreImages(children)
  }

  /** The identities of a seq of detected stores. */
  function Keys(fs: seq<Found>): (ks: seq<string>)
    ensures |ks| == |fs| && forall i :: 0 <= i < |fs| ==> ks[i] == fs[i].key
  {
    seq(|fs|, i requires 0 <= i < |fs| => fs[i].key)
  }

  /** The identity read from each image. */
  function Names(images: seq<seq<byte>>): (ns: seq<string>)
    ensures |ns| == |images| && forall i :: 0 <= i < |images| ==> ns[i] == GetFileName(images[i])
  {
    seq(|images|, i requires 0 <= i < |images| => GetFileName(images[i]))
  }

  lemma KeysAppend(a: seq<Found>, b: seq<Found>)
    ensures Keys(a + b) == Keys(a) + Keys(b)
  {
  }

  lemma NamesAppend(a: seq<seq<byte>>, b: seq<seq<byte>>)
    ensures Names(a + b) == Names(a) + Names(b)
  {
  }

  /** Grouping keys come from file contents alone: the walk detects exactly the images that
      pass the format check, once each, in order, and keys each by the name in its header,
      whatever the directory path, the entry names or the labels. */
  lemma {:induction false} KeysFromContents(parent: string, es: seq<Entry>, position: Option<string>)
    ensures Keys(DiscoverEntries(parent, es, position)) == Names(StoreImages(es))
    decreases es, 1
  {
    if es != [] {
      var l := NextLabel(position, es[0].name);
      KeysFromEntry(parent, es[0], l);
      KeysFromContents(parent, es[1..], l);
      KeysAppend(DiscoverEntry(parent, es[0], l), DiscoverEntries(parent, es[1..], l));
      NamesAppend(EntryImages(es[0]), StoreImages(es[1..]));
    }
  }

  lemma {:induction false} KeysFromEntry(parent: string, e: Entry, position: Option<string>)
    ensures Keys(DiscoverEntry(parent, e, position)) == Names(EntryImages(e))
    decreases e, 0
  {
    if e.Dir? {
      KeysFromContents(Join(parent, e.name), e.children, position);
    }
  }

  // ---------------------------------------------------------------------------
  // Grouping: the identity -> copies map

  /** The value of the map: keys in insertion order (a JavaScript Map iterates that way)
      and the list kept for each key. */
  datatype Groups = Groups(order: seq<string>, files: map<string, seq<StoreFile>>)

  const Empty: Groups := Groups([], map[])

  /** Every key listed once, exactly the keys of the map, no empty list. */
  predicate WellFormed(g: Groups) {
    && (forall i, j :: 0 <= i < j < |g.order| ==> g.order[i] != g.order[j])
    && (forall k :: k in g.order ==> k in g.files)
    && (forall k :: k in g.files ==> k in g.order)
    && (forall k :: k in g.files ==> g.files[k] != [])
  }

  /** The list kept for `key`, empty when there is none. */
  function Lookup(g: Groups, key: string): seq<StoreFile> {
    if key in g.files then g.files[key] else []
  }

  /** One push onto the map (`get` then `push`, or `set` of a one-element list): the list for
      the key gains the record at its end and nothing else changes; a new key goes last. */
  function Push(g: Groups, f: Found): (r: Groups)
    ensures Lookup(r, f.key) == Lookup(g, f.key) + [f.file]
    ensures forall k :: k != f.key ==> Lookup(r, k) == Lookup(g, k)
    ensures r.files.Keys == g.files.Keys + {f.key}
    ensures r.order == if f.key in g.files then g.order else g.order + [f.key]
  {
    if f.key in g.files then Groups(g.order, g.files[f.key := g.files[f.key] + [f.file]])
    else Groups(g.order + [f.key], g.files[f.key := [f.file]])
  }

  /** The map after pushing every record of `t`, in order. */
  function AppendAll(g: Groups, t: seq<Found>): Groups
    decreases |t|
  {
    if t == [] then g else AppendAll(Push(g, t[0]), t[1..])
  }

  /** The keys after the pushes are the keys before plus the key of every record pushed. */
  lemma {:induction false} AppendAllKeys(g: Groups, t: seq<Found>)
    ensures AppendAll(g, t).files.Keys == g.files.Keys + set f | f in t :: f.key
    decreases |t|
  {
    if t != [] {
      AppendAllKeys(Push(g, t[0]), t[1..]);
      assert (set f | f in t :: f.key) == {t[0].key} + set f | f in t[1..] :: f.key;
    }
  }

  lemma {:induction false} AppendAllConcat(g: Groups, a: seq<Found>, b: seq<Found>)
    ensures AppendAll(g, a + b) == AppendAll(AppendAll(g, a), b)
    decreases |a|
  {
    if a == [] {
      assert a + b == b;
    } else {
      assert (a + b)[0] == a[0];
      assert (a + b)[1..] == a[1..] + b;
      AppendAllConcat(Push(g, a[0]), a[1..], b);
    }
  }

  /** The records of `t` filed under `key`, in order. */
  function FilesFor(t: seq<Found>, key: string): seq<StoreFile>
    decreases |t|
  {
    if t == [] then []
    else (if t[0].key == key then [t[0].file] else []) + FilesFor(t[1..], key)
  }

  /** Grouping is append-only and in discovery order: each key's list is its old list followed
      by exactly the records discovered for it, in the order discovered. */
  lemma {:induction false} GroupsInDiscoveryOrder(g: Groups, t: seq<Found>, key: string)
    ensures Lookup(AppendAll(g, t), key) == Lookup(g, key) + FilesFor(t, key)
    decreases |t|
  {
    if t != [] {
      var head := if t[0].key == key then [t[0].file] else [];
      GroupsInDiscoveryOrder(Push(g, t[0]), t[1..], key);
      assert Lookup(Push(g, t[0]), key) == Lookup(g, key) + head;
      assert FilesFor(t, key) == head + FilesFor(t[1..], key);
    }
  }

  lemma PushWellFormed(g: Groups, f: Found)
    requires WellFormed(g)
    ensures WellFormed(Push(g, f))
  {
  }

  /** Pushing keeps the map well formed. */
  lemma {:induction false} AppendAllWellFormed(g: Groups, t: seq<Found>)
    requires WellFormed(g)
    ensures WellFormed(AppendAll(g, t))
    decreases |t|
  {
    if t != [] {
      PushWellFormed(g, t[0]);
      AppendAllWellFormed(Push(g, t[0]), t[1..]);
    }
  }

  /** A file that is not a store leaves the map as it was. */
  lemma NonStoreIgnored(g: Groups, parent: string, name: string, contents: seq<byte>, position: Option<string>)
    requires !IsSQLiteFile(contents)
    ensures AppendAll(g, DiscoverEntry(parent, File(name, contents), position)) == g
  {
  }

  /** A directory holding one unmarked store file yields that store, with the directory's label. */
  lemma OneStoreDir(parent: string, dir: string, name: string, image: seq<byte>, position: Option<string>)
    requires IsSQLiteFile(image) && !Includes(name, Marker)
    ensures |DiscoverEntry(parent, Dir(dir, [File(name, image)]), position)| == 1
    ensures DiscoverEntry(parent, Dir(dir, [File(name, image)]), position)[0].key == GetFileName(image)
    ensures DiscoverEntry(parent, Dir(dir, [File(name, image)]), position)[0].file.positionName == position
  {
    var inner := Join(parent, dir);
    assert DiscoverEntries(inner, [File(name, image)], position)
        == DiscoverEntry(inner, File(name, image), position) + DiscoverEntries(inner, [], position);
  }

  /** Two copies of one store, under "<a>-repositories" and "<b>-repositories", form one
      group labelled a then b (trimmed), in discovery order. */
  lemma TwoPositions(root: string, a: string, n1: string, img1: seq<byte>, b: string, n2: string, img2: seq<byte>)
    requires !Includes(a, MarkerSuffix) && !Includes(b, MarkerSuffix)
    requires IsSQLiteFile(img1) && IsSQLiteFile(img2) && GetFileName(img1) == GetFileName(img2)
    requires !Includes(n1, Marker) && !Includes(n2, Marker)
    ensures var key := GetFileName(img1);
            var groups := AppendAll(Empty, DiscoverEntries(root, [Dir(a + MarkerSuffix, [File(n1, img1)]),
                                                                   Dir(b + MarkerSuffix, [File(n2, img2)])], None));
            groups.order == [key]
            && |Lookup(groups, key)| == 2
            && Lookup(groups, key)[0].positionName == Some(Trim(a))
            && Lookup(groups, key)[1].positionName == Some(Trim(b))
  {
    var t := DiscoverEntries(root, [Dir(a + MarkerSuffix, [File(n1, img1)]), Dir(b + MarkerSuffix, [File(n2, img2)])], None);
    TwoPositionsFound(root, a, n1, img1, b, n2, img2);
    GroupPair(t);
  }

  /** The walk of that tree finds the two copies, labelled a then b. */
  lemma TwoPositionsFound(root: string, a: string, n1: string, img1: seq<byte>, b: string, n2: string, img2: seq<byte>)
    requires !Includes(a, MarkerSuffix) && !Includes(b, MarkerSuffix)
    requires IsSQLiteFile(img1) && IsSQLiteFile(img2)
    requires !Includes(n1, Marker) && !Includes(n2, Marker)
    ensures var t := DiscoverEntries(root, [Dir(a + MarkerSuffix, [File(n1, img1)]),
                                            Dir(b + MarkerSuffix, [File(n2, img2)])], None);
            && |t| == 2
            && t[0].key == GetFileName(img1) && t[0].file.positionName == Some(Trim(a))
            && t[1].key == GetFileName(img2) && t[1].file.positionName == Some(Trim(b))
  {
    var dirA, dirB := Dir(a + MarkerSuffix, [File(n1, img1)]), Dir(b + MarkerSuffix, [File(n2, img2)]);
    LabelOfMarkerDir(None, a);
    LabelOfMarkerDir(Some(Trim(a)), b);
    OneStoreDir(root, a + MarkerSuffix, n1, img1, Some(Trim(a)));
    OneStoreDir(root, b + MarkerSuffix, n2, img2, Some(Trim(b)));
    DiscoverPair(root, dirA, dirB, None);
  }

  lemma DiscoverPair(parent: string, d1: Entry, d2: Entry, position: Option<string>)
    ensures DiscoverEntries(parent, [d1, d2], position)
         == DiscoverEntry(parent, d1, NextLabel(position, d1.name))
            + DiscoverEntry(parent, d2, NextLabel(NextLabel(position, d1.name), d2.name))
  {
    var l1 := NextLabel(position, d1.name);
    assert [d1, d2] == [d1] + [d2];
    DiscoverSplit(parent, [d1], [d2], position);
    DiscoverSingle(parent, d1, position);
    DiscoverSingle(parent, d2, l1);
    assert LabelAfter(position, [d1]) == LabelAfter(l1, []);
  }

  lemma DiscoverSingle(parent: string, e: Entry, position: Option<string>)
    ensures DiscoverEntries(parent, [e], position) == DiscoverEntry(parent, e, NextLabel(position, e.name))
  {
    assert [e][1..] == [];
  }

  /** Two records with one key, pushed onto an empty map, make one group of two. */
  lemma GroupPair(t: seq<Found>)
    requires |t| == 2 && t[0].key == t[1].key
    ensures AppendAll(Empty, t).order == [t[0].key]
    ensures Lookup(AppendAll(Empty, t), t[0].key) == [t[0].file, t[1].file]
  {
    var one := Push(Empty, t[0]);
    assert AppendAll(Empty, t) == AppendAll(one, t[1..]);
    assert t[1..][1..] == [];
    assert AppendAll(one, t[1..]) == AppendAll(Push(one, t[1]), []);
  }

  // ---------------------------------------------------------------------------
  // The imperative walk

  /** The map shared by every level of the walk. */
  class PositionFiles {
    var order: seq<string>
    var files: map<string, seq<StoreFile>>

    function Value(): Groups
      reads this
    {
      Groups(order, files)
    }

    ghost predicate Valid()
      reads this
    {
      WellFormed(Value())
    }

    constructor ()
      ensures Valid() && Value() == Empty
    {
      order := [];
      files := map[];
    }

    /** Push `f.file` onto the list for `f.key`, creating the list if there is none. */
    method Add(f: Found)
      requires Valid()
      modifies this
      ensures Valid()
      ensures Value() == Push(old(Value()), f)
    {
      PushWellFormed(Value(), f);
      if f.key in files {
        files := files[f.key := files[f.key] + [f.file]];
      } else {
        order := order + [f.key];
        files := files[f.key := [f.file]];
      }
    }
  }

  /** `traverse`: walk the entries of `parent` with the inherited label, updating the label
      at each marker name and pushing every detected store onto `groups`. */
  method Traverse(groups: PositionFiles, parent: string, entries: seq<Entry>, inherited: Option<string>)
    requires groups.Valid()
    modifies groups
    ensures groups.Valid()
    ensures groups.Value() == AppendAll(old(groups.Value()), DiscoverEntries(parent, entries, inherited))
    decreases entries, 1
  {
    var positionName := inherited;
    var i := 0;
    while i < |entries|
      invariant 0 <= i <= |entries|
      invariant groups.Valid()
      invariant AppendAll(groups.Value(), DiscoverEntries(parent, entries[i..], positionName))
             == AppendAll(old(groups.Value()), DiscoverEntries(parent, entries, inherited))
    {
      ghost var before, was := groups.Value(), positionName;
      var dirEnt := entries[i];
      if Includes(dirEnt.name, Marker) {
        positionName := Some(Trim(SplitHead(dirEnt.name, MarkerSuffix)));
      }
      assert positionName == NextLabel(was, dirEnt.name);
      DiscoverStep(parent, entries, i, was);
      AppendAllConcat(before, DiscoverEntry(parent, dirEnt, positionName), DiscoverEntries(parent, entries[i + 1..], positionName));
      Visit(groups, parent, dirEnt, positionName);
      i := i + 1;
    }
  }

  /** One entry of `traverse` once its label is settled: recurse into a directory with that
      label; push a file that is a store onto the list for its identity. */
  method Visit(groups: PositionFiles, parent: string, dirEnt: Entry, positionName: Option<string>)
    requires groups.Valid()
    modifies groups
    ensures groups.Valid()
    ensures groups.Value() == AppendAll(old(groups.Value()), DiscoverEntry(parent, dirEnt, positionName))
    decreases dirEnt, 0
  {
    var completePath := Join(parent, dirEnt.name);
    match dirEnt
    case Dir(_, children) =>
      Traverse(groups, completePath, children, positionName);
    case File(name, contents) =>
      if IsSQLiteFile(contents) {
        var fileName := GetFileName(contents);
        var newCompletePath := ReplaceFirst(completePath, name, fileName);
        groups.Add(Found(fileName, StoreFile(newCompletePath + Extension, positionName)));
        assert DiscoverEntry(parent, dirEnt, positionName)
            == [Found(fileName, StoreFile(newCompletePath + Extension, positionName))];
      }
  }

  /** One step of the loop in `Traverse`: entry `i` with the label it sets, then the rest. */
  lemma DiscoverStep(parent: string, es: seq<Entry>, i: nat, position: Option<string>)
    requires i < |es|
    ensures DiscoverEntries(parent, es[i..], position)
         == DiscoverEntry(parent, es[i], NextLabel(position, es[i].name))
            + DiscoverEntries(parent, es[i + 1..], NextLabel(position, es[i].name))
  {
    assert es[i..][1..] == es[i + 1..];
  }

  /** The whole walk from the root directory, with no label to start with. */
  method FindStores(root: string, entries: seq<Entry>) returns (groups: PositionFiles)
    ensures fresh(groups) && groups.Valid()
    ensures groups.Value() == AppendAll(Empty, DiscoverEntries(root, entries, None))
  {
    groups := new PositionFiles();
    Traverse(groups, root, entries, None);
  }
}
