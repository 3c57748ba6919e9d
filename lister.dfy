/** The prefix lister of main.py: `list_s3_objects` emulates a directory
    listing on a flat object store by reducing the keys under a prefix to
    their distinct immediate children, sorted. The store's
    `list_objects_v2` call is a parameter. */
module Lister {
  import opened Lexicographic

  datatype Option<+T> = None | Some(value: T)

  /** One entry of the store's "Contents" list; only its "Key" is read. */
  datatype StoredObject = StoredObject(key: string)

  /** The part of a `list_objects_v2` response the lister reads: the
      "Contents" field, absent when no key matches. */
  datatype Response = Response(contents: Option<seq<StoredObject>>)

  /** What the store call does: answer, or raise an exception with a message. */
  datatype StoreReply = Replied(response: Response) | Raised(message: string)

  /** What `list_s3_objects` returns: `{"content": [...]}`, or the pair
      `({"error": message}, status)`. */
  datatype ListResult = Content(content: seq<string>) | Error(error: string, status: int)

  const ServerErrorStatus := 500

  predicate EndsWithSlash(s: string) {
    |s| > 0 && s[|s| - 1] == '/'
  }

  predicate IsPrefix(p: string, s: string) {
    |p| <= |s| && s[..|p|] == p
  }

  /** A non-empty prefix gets a `/` appended unless it already ends in one. */
  function NormalizePrefix(prefix: string): (p: string)
    ensures IsPrefix(prefix, p) && |p| <= |prefix| + 1
    ensures p == [] <==> prefix == []
    ensures p != [] ==> EndsWithSlash(p)
    ensures EndsWithSlash(prefix) ==> p == prefix
  {
    if prefix != [] && !EndsWithSlash(prefix) then prefix + "/" else prefix
  }

  lemma NormalizePrefixIdempotent(prefix: string)
    ensures NormalizePrefix(NormalizePrefix(prefix)) == NormalizePrefix(prefix)
  {
  }

  /** Python's total slice `key[len(prefix):]`: the first `|prefix|`
      characters are dropped whatever they are, and a key no longer than
      the prefix leaves the empty string. */
  function StripPrefix(key: string, prefix: string): (rest: string)
    ensures |prefix| <= |key| ==> |rest| == |key| - |prefix|
    ensures |key| <= |prefix| ==> rest == []
    ensures IsPrefix(prefix, key) ==> key == prefix + rest
  {
    if |prefix| <= |key| then key[|prefix|..] else []
  }

  /** The slice keeps the key's characters from position `|prefix|` on. */
  lemma StripPrefixDropsLeading(key: string, prefix: string, j: nat)
    requires j < |StripPrefix(key, prefix)|
    ensures StripPrefix(key, prefix)[j] == key[|prefix| + j]
  {
  }

  /** Position of the first `/` in `s`, or `|s|` when there is none. */
  function FirstSlash(s: string): (k: nat)
    ensures k <= |s|
    ensures forall j :: 0 <= j < k ==> s[j] != '/'
    ensures k < |s| ==> s[k] == '/'
  {
    if s == [] || s[0] == '/' then 0 else 1 + FirstSlash(s[1..])
  }

  /** `s.split("/")[0]`: everything before the first `/`, or all of `s`. */
  function FirstSegment(s: string): string {
    s[..FirstSlash(s)]
  }

  /** The segment is a prefix of `s` without a `/`, followed in `s` by a
      `/` or by nothing. */
  lemma FirstSegmentSpec(s: string)
    ensures IsPrefix(FirstSegment(s), s)
    ensures '/' !in FirstSegment(s)
    ensures |FirstSegment(s)| < |s| ==> s[|FirstSegment(s)|] == '/'
  {
  }

  /** The immediate child a key contributes under a normalised prefix. */
  function Child(key: string, prefix: string): string {
    FirstSegment(StripPrefix(key, prefix))
  }

  /** A key the store returns for `prefix` consists of the prefix, then the
      child, then nothing or a `/` and the rest of the path. */
  lemma ChildIsImmediate(key: string, prefix: string)
    requires IsPrefix(prefix, key)
    ensures IsPrefix(prefix + Child(key, prefix), key)
    ensures '/' !in Child(key, prefix)
    ensures |prefix + Child(key, prefix)| < |key| ==> key[|prefix + Child(key, prefix)|] == '/'
  {
    var rest := StripPrefix(key, prefix);
    var c := FirstSegment(rest);
    FirstSegmentSpec(rest);
    assert key == prefix + rest;
    assert rest[..|c|] == c;
    assert key[..|prefix| + |c|] == prefix + rest[..|c|];
    if |c| < |rest| {
      assert key[|prefix| + |c|] == rest[|c|];
    }
  }

  /** The first `/` of `name + rest` is the one that starts `rest`, if any. */
  lemma {:induction false} FirstSlashAfter(name: string, rest: string)
    requires '/' !in name
    requires rest == [] || rest[0] == '/'
    ensures FirstSlash(name + rest) == |name|
    decreases |name|
  {
    if name != [] {
      assert (name + rest)[1..] == name[1..] + rest;
      FirstSlashAfter(name[1..], rest);
    }
  }

  /** A key made of the prefix, a `/`-free name and then nothing or a path
      starting with `/` has that name as its child. */
  lemma ChildOfPath(prefix: string, name: string, rest: string)
    requires '/' !in name
    requires rest == [] || rest[0] == '/'
    ensures Child(prefix + name + rest, prefix) == name
  {
    var key := prefix + name + rest;
    assert key[..|prefix|] == prefix;
    assert StripPrefix(key, prefix) == name + rest;
    FirstSlashAfter(name, rest);
    assert (name + rest)[..|name|] == name;
  }

  /** The objects of a response; a missing "Contents" field means none. */
  function ObjectsOf(response: Response): seq<StoredObject> {
    match response.contents
    case None => []
    case Some(objects) => objects
  }

  /** The `contents` list built by the loop, before deduplication: one
      child per object whose key is not the folder marker `prefix`, in
      the order of the objects. */
  function Children(objects: seq<StoredObject>, prefix: string): (names: seq<string>)
    ensures |names| <= |objects|
  {
    if objects == [] then []
    else Children(objects[..|objects| - 1], prefix) + Contribution(objects[|objects| - 1], prefix)
  }

  /** What one object adds to the list: its child, unless it is the marker. */
  function Contribution(obj: StoredObject, prefix: string): (names: seq<string>)
    ensures |names| <= 1
  {
    if obj.key != prefix then [Child(obj.key, prefix)] else []
  }

  /** `obj` is not the folder marker and has `c` as its immediate child. */
  predicate Yields(obj: StoredObject, prefix: string, c: string) {
    obj.key != prefix && c == Child(obj.key, prefix)
  }

  lemma {:induction false} ChildrenAppend(a: seq<StoredObject>, b: seq<StoredObject>, prefix: string)
    ensures Children(a + b, prefix) == Children(a, prefix) + Children(b, prefix)
    decreases |b|
  {
    if b == [] {
      assert a + b == a;
    } else {
      assert (a + b)[..|a + b| - 1] == a + b[..|b| - 1];
      ChildrenAppend(a, b[..|b| - 1], prefix);
    }
  }

  lemma ChildrenPrefixStep(objects: seq<StoredObject>, i: nat, prefix: string)
    requires i < |objects|
    ensures Children(objects[..i + 1], prefix) == Children(objects[..i], prefix) + Contribution(objects[i], prefix)
  {
    assert objects[..i + 1][..i] == objects[..i];
  }

  /** Soundness of the loop: a collected name is the child of some object
      other than the folder marker. */
  lemma {:induction false} ChildrenSound(objects: seq<StoredObject>, prefix: string, c: string)
    requires c in Children(objects, prefix)
    ensures exists i :: 0 <= i < |objects| && Yields(objects[i], prefix, c)
    decreases |objects|
  {
    var n := |objects| - 1;
    var init := objects[..n];
    if c in Children(init, prefix) {
      ChildrenSound(init, prefix, c);
      var i :| 0 <= i < n && Yields(init[i], prefix, c);
      assert objects[i] == init[i];
    } else {
      assert Yields(objects[n], prefix, c);
    }
  }

  /** Completeness of the loop: every object other than the folder marker
      has its child collected. */
  lemma {:induction false} ChildrenComplete(objects: seq<StoredObject>, prefix: string, i: nat)
    requires i < |objects| && objects[i].key != prefix
    ensures Child(objects[i].key, prefix) in Children(objects, prefix)
    decreases |objects|
  {
    var n := |objects| - 1;
    var c := Child(objects[i].key, prefix);
    assert Children(objects, prefix) == Children(objects[..n], prefix) + Contribution(objects[n], prefix);
    if i < n {
      assert objects[..n][i] == objects[i];
      ChildrenComplete(objects[..n], prefix, i);
      assert c in Children(objects[..n], prefix);
    } else {
      assert Contribution(objects[n], prefix) == [c];
    }
  }

  /** The folder marker contributes nothing, wherever it appears. */
  lemma MarkerIgnored(a: seq<StoredObject>, b: seq<StoredObject>, prefix: string)
    ensures Children(a + [StoredObject(prefix)] + b, prefix) == Children(a + b, prefix)
  {
    var marker := [StoredObject(prefix)];
    assert Children(marker, prefix) == [] by {
      assert marker[..0] == [];
    }
    calc {
      Children(a + marker + b, prefix);
    == { ChildrenAppend(a + marker, b, prefix); }
      Children(a + marker, prefix) + Children(b, prefix);
    == { ChildrenAppend(a, marker, prefix); }
      Children(a, prefix) + Children(b, prefix);
    == { ChildrenAppend(a, b, prefix); }
      Children(a + b, prefix);
    }
  }

  /** What `list_s3_objects(prefix)` returns when the store's reply to the
      query with the normalised prefix is `reply`. */
  function Listing(prefix: string, reply: StoreReply): ListResult {
    match reply
    case Raised(message) => Error(message, ServerErrorStatus)
    case Replied(response) =>
      Content(SortedSet(Children(ObjectsOf(response), NormalizePrefix(prefix))))
  }

  /** `list_s3_objects`: normalise the prefix, query the store with it,
      collect one child per non-marker key, then deduplicate and sort. */
  method ListS3Objects(prefix: string, listObjectsV2: string -> StoreReply) returns (result: ListResult)
    ensures result == Listing(prefix, listObjectsV2(NormalizePrefix(prefix)))
  {
    var p := prefix;
    if p != [] && !EndsWithSlash(p) {
      p := p + "/";
    }
    assert p == NormalizePrefix(prefix);
    var reply := listObjectsV2(p);
    match reply
    case Raised(message) =>
      result := Error(message, ServerErrorStatus);
    case Replied(response) =>
      var contents: seq<string> := [];
      if response.contents.Some? {
        var objects := response.contents.value;
        for i := 0 to |objects|
          invariant contents == Children(objects[..i], p)
        {
          var key := objects[i].key;
          if key != p {
            contents := contents + [FirstSegment(StripPrefix(key, p))];
          }
          ChildrenPrefixStep(objects, i, p);
        }
        assert objects[..|objects|] == objects;
      }
      contents := SortedSet(contents);
      result := Content(contents);
  }

  /** A failed store query gives the error outcome with its message and
      status 500, and never a content list; a reply never gives an error. */
  lemma ListingOutcome(prefix: string, reply: StoreReply)
    ensures Listing(prefix, reply).Error? <==> reply.Raised?
    ensures reply.Raised? ==> Listing(prefix, reply) == Error(reply.message, 500)
  {
  }

  /** The names listed for a reply are sorted and duplicate-free, and are
      exactly the children of the non-marker keys. */
  lemma ListingContent(prefix: string, response: Response, c: string)
    ensures Listing(prefix, Replied(response)).Content?
    ensures StrictlyIncreasing(Listing(prefix, Replied(response)).content)
    ensures c in Listing(prefix, Replied(response)).content <==>
      exists i :: 0 <= i < |ObjectsOf(response)| && Yields(ObjectsOf(response)[i], NormalizePrefix(prefix), c)
  {
    var objects, p := ObjectsOf(response), NormalizePrefix(prefix);
    if c in Children(objects, p) {
      ChildrenSound(objects, p, c);
    }
    if exists i :: 0 <= i < |objects| && Yields(objects[i], p, c) {
      var i :| 0 <= i < |objects| && Yields(objects[i], p, c);
      ChildrenComplete(objects, p, i);
    }
  }

  /** No listed name contains the delimiter. */
  lemma ListingHasNoSlash(prefix: string, response: Response)
    ensures forall c :: c in Listing(prefix, Replied(response)).content ==> '/' !in c
  {
    var objects, p := ObjectsOf(response), NormalizePrefix(prefix);
    forall c | c in Listing(prefix, Replied(response)).content ensures '/' !in c {
      ListingContent(prefix, response, c);
      var i :| 0 <= i < |objects| && Yields(objects[i], p, c);
      FirstSegmentSpec(StripPrefix(objects[i].key, p));
    }
  }

  /** Adding the folder marker object anywhere changes nothing. */
  lemma ListingIgnoresMarker(prefix: string, a: seq<StoredObject>, b: seq<StoredObject>)
    ensures Listing(prefix, Replied(Response(Some(a + [StoredObject(NormalizePrefix(prefix))] + b))))
         == Listing(prefix, Replied(Response(Some(a + b))))
  {
    MarkerIgnored(a, b, NormalizePrefix(prefix));
  }

  /** No "Contents" field, or an empty one, gives `{"content": []}`. */
  lemma ListingOfNothing(prefix: string)
    ensures Listing(prefix, Replied(Response(None))) == Content([])
    ensures Listing(prefix, Replied(Response(Some([])))) == Content([])
  {
  }

  /** The listing is empty exactly when every returned key is the marker. */
  lemma ListingEmptyIff(prefix: string, response: Response)
    ensures Listing(prefix, Replied(response)).content == [] <==>
      forall i :: 0 <= i < |ObjectsOf(response)| ==> ObjectsOf(response)[i].key == NormalizePrefix(prefix)
  {
    var objects, p := ObjectsOf(response), NormalizePrefix(prefix);
    var names := Listing(prefix, Replied(response)).content;
    if names == [] {
      forall i | 0 <= i < |objects| ensures objects[i].key == p {
        if objects[i].key != p {
          assert Yields(objects[i], p, Child(objects[i].key, p));
          ListingContent(prefix, response, Child(objects[i].key, p));
        }
      }
    } else {
      ListingContent(prefix, response, names[0]);
    }
  }

  /** The listing depends only on which keys are returned, not on their
      order or repetition. */
  lemma ListingDependsOnKeySet(prefix: string, r1: Response, r2: Response)
    requires forall k :: k in ObjectsOf(r1) <==> k in ObjectsOf(r2)
    ensures Listing(prefix, Replied(r1)) == Listing(prefix, Replied(r2))
  {
    var p := NormalizePrefix(prefix);
    var n1, n2 := Listing(prefix, Replied(r1)).content, Listing(prefix, Replied(r2)).content;
    forall c ensures c in n1 <==> c in n2 {
      ListingContent(prefix, r1, c);
      ListingContent(prefix, r2, c);
      if c in n1 {
        var i :| 0 <= i < |ObjectsOf(r1)| && Yields(ObjectsOf(r1)[i], p, c);
        assert ObjectsOf(r1)[i] in ObjectsOf(r2);
      }
      if c in n2 {
        var i :| 0 <= i < |ObjectsOf(r2)| && Yields(ObjectsOf(r2)[i], p, c);
        assert ObjectsOf(r2)[i] in ObjectsOf(r1);
      }
    }
    ListingContent(prefix, r1, "");
    ListingContent(prefix, r2, "");
    StrictlyIncreasingUnique(n1, n2);
  }

  /** Listing "dir2" and "dir2/" is the same thing. */
  lemma ListingNormalizedPrefix(prefix: string, reply: StoreReply)
    ensures Listing(NormalizePrefix(prefix), reply) == Listing(prefix, reply)
  {
    NormalizePrefixIdempotent(prefix);
  }
}
