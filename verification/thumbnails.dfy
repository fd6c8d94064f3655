/** The Thumbnails tab: the uploads are sorted into the box and portrait
    roles by their names, the portrait is compressed and also converted to
    WebP, and everything is packed into one bundle holding a `Box` folder, a
    `Portrait` folder and a `portrait.zip` copy of the `Portrait` folder.
    Compression, WebP encoding and zip serialisation are parameters. */
module Thumbnails {
  import opened Wrappers
  import opened Text
  import opened Tables
  import opened Files

  const BoxRole := "box"
  const PortraitRole := "portrait"

  /** The keys of the `spec` dictionary, in order. */
  const Roles := [BoxRole, PortraitRole]

  /** `spec[role]`: the extension the role's file is stored under, and
      whether its image is compressed. */
  function RoleSpec(role: string): (string, bool) {
    if role == PortraitRole then (".jpg", true) else (".jpg", false)
  }

  // ----- bucketing the uploads -----

  predicate HasRole(f: Upload, role: string) {
    Contains(Lower(f.name), role)
  }

  /** One file of the comprehension `{k: f for f in uploads for k in spec
      if k in f.name.lower()}`: the file, here its position `i` among the
      uploads, takes every role whose keyword its lower-cased name holds,
      replacing an earlier file. */
  function BucketFile(bucket: Table<nat>, i: nat, f: Upload): (r: Table<nat>)
    requires DistinctKeys(bucket)
    ensures DistinctKeys(r)
  {
    var b := if HasRole(f, BoxRole) then Assign(bucket, BoxRole, i) else bucket;
    if HasRole(f, PortraitRole) then Assign(b, PortraitRole, i) else b
  }

  /** `Put`, with the keys kept distinct. */
  function Assign(bucket: Table<nat>, role: string, i: nat): (r: Table<nat>)
    requires DistinctKeys(bucket)
    ensures DistinctKeys(r) && r == Put(bucket, role, i)
  {
    PutDistinct(bucket, role, i);
    Put(bucket, role, i)
  }

  /** The bucket, with each role mapped to the position of its upload; two
      roles may share one upload. */
  function Bucket(uploads: seq<Upload>): (r: Table<nat>)
    ensures DistinctKeys(r)
  {
    if |uploads| == 0 then [] else BucketFile(Bucket(uploads[..|uploads| - 1]), |uploads| - 1, uploads[|uploads| - 1])
  }

  /** Position of the last upload whose name holds the role keyword. */
  function LastFor(uploads: seq<Upload>, role: string): (r: Option<nat>)
    ensures r.Some? ==> r.value < |uploads| && HasRole(uploads[r.value], role)
    ensures r.Some? ==> forall j :: r.value < j < |uploads| ==> !HasRole(uploads[j], role)
    ensures r.None? ==> forall j :: 0 <= j < |uploads| ==> !HasRole(uploads[j], role)
  {
    if |uploads| == 0 then None
    else if HasRole(uploads[|uploads| - 1], role) then Some(|uploads| - 1)
    else LastFor(uploads[..|uploads| - 1], role)
  }

  /** Position of the first upload whose name holds the role keyword. */
  function FirstFor(uploads: seq<Upload>, role: string): (r: Option<nat>)
    ensures r.Some? ==> r.value < |uploads| && HasRole(uploads[r.value], role)
    ensures r.Some? ==> forall j :: 0 <= j < r.value ==> !HasRole(uploads[j], role)
    ensures r.None? ==> forall j :: 0 <= j < |uploads| ==> !HasRole(uploads[j], role)
  {
    if |uploads| == 0 then None
    else
      match FirstFor(uploads[..|uploads| - 1], role)
      case Some(i) => Some(i)
      case None => if HasRole(uploads[|uploads| - 1], role) then Some(|uploads| - 1) else None
  }

  /** Each role holds the position of the last upload whose name holds its
      keyword, or nothing when no name does; one file can fill both roles. */
  lemma {:induction false} BucketRole(uploads: seq<Upload>, role: string)
    requires role in Roles
    ensures Get(Bucket(uploads), role) == LastFor(uploads, role)
  {
    if |uploads| > 0 {
      var n := |uploads| - 1;
      var init := uploads[..n];
      var f := uploads[n];
      var prev := Bucket(init);
      BucketRole(init, role);
      assert BoxRole != PortraitRole;
      assert Bucket(uploads) == BucketFile(prev, n, f);
      var b := if HasRole(f, BoxRole) then Assign(prev, BoxRole, n) else prev;
      assert Get(b, role) == if role == BoxRole && HasRole(f, BoxRole) then Some(n) else Get(prev, role);
      assert Bucket(uploads) == if HasRole(f, PortraitRole) then Assign(b, PortraitRole, n) else b;
      assert Get(Bucket(uploads), role) == if HasRole(f, role) then Some(n) else Get(prev, role);
      assert LastFor(uploads, role) == if HasRole(f, role) then Some(n) else LastFor(init, role);
    }
  }

  /** The first upload for a role, after one more upload at position `n`
      that holds the role exactly when `has`. */
  function FirstAfter(first: Option<nat>, has: bool, n: nat): Option<nat> {
    if first.Some? then first else if has then Some(n) else None
  }

  lemma FirstForStep(uploads: seq<Upload>, role: string)
    requires |uploads| > 0
    ensures var n := |uploads| - 1;
      FirstFor(uploads, role) == FirstAfter(FirstFor(uploads[..n], role), HasRole(uploads[n], role), n)
  {
  }

  /** The order in which the roles enter the bucket, given the first upload
      for each: by position, the box first when one upload holds both. */
  function OrderOf(box: Option<nat>, portrait: Option<nat>): seq<string> {
    match (box, portrait)
    case (None, None) => []
    case (Some(_), None) => [BoxRole]
    case (None, Some(_)) => [PortraitRole]
    case (Some(b), Some(p)) => if b <= p then [BoxRole, PortraitRole] else [PortraitRole, BoxRole]
  }

  function RoleOrder(uploads: seq<Upload>): seq<string> {
    OrderOf(FirstFor(uploads, BoxRole), FirstFor(uploads, PortraitRole))
  }

  /** One more upload moves each role's first position as `FirstAfter` says. */
  lemma RoleOrderStep(uploads: seq<Upload>)
    requires |uploads| > 0
    ensures var n := |uploads| - 1;
      RoleOrder(uploads) == OrderOf(FirstAfter(FirstFor(uploads[..n], BoxRole), HasRole(uploads[n], BoxRole), n),
                                    FirstAfter(FirstFor(uploads[..n], PortraitRole), HasRole(uploads[n], PortraitRole), n))
  {
    FirstForStep(uploads, BoxRole);
    FirstForStep(uploads, PortraitRole);
  }

  /** Appending the roles of one more upload, each only when still absent,
      follows `OrderOf`. */
  lemma OrderStep(ks: seq<string>, box: Option<nat>, portrait: Option<nat>, hasBox: bool, hasPortrait: bool, n: nat)
    requires ks == OrderOf(box, portrait)
    requires box.Some? ==> box.value < n
    requires portrait.Some? ==> portrait.value < n
    ensures var ks1 := if hasBox && BoxRole !in ks then ks + [BoxRole] else ks;
      var ks2 := if hasPortrait && PortraitRole !in ks1 then ks1 + [PortraitRole] else ks1;
      ks2 == OrderOf(FirstAfter(box, hasBox, n), FirstAfter(portrait, hasPortrait, n))
  {
    assert BoxRole != PortraitRole;
  }

  /** An assignment made when `has` appends the role to the key order
      unless it is already there. */
  lemma AssignKeys(bucket: Table<nat>, role: string, i: nat, has: bool)
    requires DistinctKeys(bucket)
    ensures var r := if has then Assign(bucket, role, i) else bucket;
      Keys(r) == if has && role !in Keys(bucket) then Keys(bucket) + [role] else Keys(bucket)
  {
    if has {
      if role in Keys(bucket) {
        PutKeysExisting(bucket, role, i);
      } else {
        PutKeysNew(bucket, role, i);
      }
    }
  }

  /** One more file appends each of its roles not yet in the bucket, box
      first. */
  lemma BucketFileKeys(prev: Table<nat>, n: nat, f: Upload)
    requires DistinctKeys(prev)
    ensures var ks := Keys(prev);
      var ks1 := if HasRole(f, BoxRole) && BoxRole !in ks then ks + [BoxRole] else ks;
      Keys(BucketFile(prev, n, f)) == if HasRole(f, PortraitRole) && PortraitRole !in ks1 then ks1 + [PortraitRole] else ks1
  {
    var b := if HasRole(f, BoxRole) then Assign(prev, BoxRole, n) else prev;
    AssignKeys(prev, BoxRole, n, HasRole(f, BoxRole));
    assert BucketFile(prev, n, f) == if HasRole(f, PortraitRole) then Assign(b, PortraitRole, n) else b;
    AssignKeys(b, PortraitRole, n, HasRole(f, PortraitRole));
  }

  /** A role enters the bucket with its first upload and keeps its place
      when a later upload replaces that one, so the bucket's key order is
      `RoleOrder`. */
  lemma {:induction false} BucketKeys(uploads: seq<Upload>)
    ensures Keys(Bucket(uploads)) == RoleOrder(uploads)
  {
    if |uploads| > 0 {
      var n := |uploads| - 1;
      var init := uploads[..n];
      var f := uploads[n];
      var ks := Keys(Bucket(init));
      var ks1 := if HasRole(f, BoxRole) && BoxRole !in ks then ks + [BoxRole] else ks;
      var ks2 := if HasRole(f, PortraitRole) && PortraitRole !in ks1 then ks1 + [PortraitRole] else ks1;
      assert Keys(Bucket(uploads)) == ks2 by {
        assert Bucket(uploads) == BucketFile(Bucket(init), n, f);
        BucketFileKeys(Bucket(init), n, f);
      }
      var box, portrait := FirstFor(init, BoxRole), FirstFor(init, PortraitRole);
      assert ks == OrderOf(box, portrait) by {
        BucketKeys(init);
      }
      assert ks2 == OrderOf(FirstAfter(box, HasRole(f, BoxRole), n), FirstAfter(portrait, HasRole(f, PortraitRole), n)) by {
        OrderStep(ks, box, portrait, HasRole(f, BoxRole), HasRole(f, PortraitRole), n);
      }
      RoleOrderStep(uploads);
    }
  }

  /** No other key is ever filled. */
  lemma {:induction false} BucketOnlyRoles(uploads: seq<Upload>, k: string)
    requires k !in Roles
    ensures Get(Bucket(uploads), k) == None
    ensures k !in Keys(Bucket(uploads))
  {
    if |uploads| > 0 {
      var n := |uploads| - 1;
      BucketOnlyRoles(uploads[..n], k);
      assert k != BoxRole && k != PortraitRole;
      var f := uploads[n];
      var prev := Bucket(uploads[..n]);
      var b := if HasRole(f, BoxRole) then Put(prev, BoxRole, n) else prev;
      assert Get(b, k) == None;
    }
  }

  /** A dictionary with distinct keys drawn from the two roles has two
      entries exactly when it holds both roles. */
  lemma TwoRoles(t: Table<nat>)
    requires DistinctKeys(t) && forall i :: 0 <= i < |t| ==> t[i].0 in Roles
    ensures |t| == 2 <==> BoxRole in Keys(t) && PortraitRole in Keys(t)
  {
    assert BoxRole != PortraitRole;
    forall i | 0 <= i < |t| ensures t[i].0 in {BoxRole, PortraitRole} {
      assert t[i].0 in Roles;
    }
    DistinctKeysBound(t, {BoxRole, PortraitRole});
    if BoxRole in Keys(t) && PortraitRole in Keys(t) {
      var a :| 0 <= a < |t| && Keys(t)[a] == BoxRole;
      var b :| 0 <= b < |t| && Keys(t)[b] == PortraitRole;
      assert a != b;
    }
    if |t| == 2 {
      assert t[0].0 != t[1].0;
      assert Keys(t)[0] == t[0].0 && Keys(t)[1] == t[1].0;
    }
  }

  /** The bucket is complete exactly when both roles have an upload. */
  lemma BucketComplete(uploads: seq<Upload>)
    ensures |Bucket(uploads)| == 2 <==> LastFor(uploads, BoxRole).Some? && LastFor(uploads, PortraitRole).Some?
  {
    var t := Bucket(uploads);
    BucketRole(uploads, BoxRole);
    BucketRole(uploads, PortraitRole);
    forall i | 0 <= i < |t| ensures t[i].0 in Roles {
      assert Keys(t)[i] == t[i].0;
      if t[i].0 !in Roles {
        BucketOnlyRoles(uploads, t[i].0);
      }
    }
    TwoRoles(t);
  }

  // ----- folders -----

  /** A dictionary of folders, each a dictionary from file name to bytes. */
  type Folders = Table<Table<Bytes>>

  /** `{"Box": {}, "Portrait": {}}`. */
  const NoFolders: Folders := [("Box", []), ("Portrait", [])]

  function Folder(folders: Folders, name: string): Table<Bytes> {
    match Get(folders, name)
    case None => []
    case Some(f) => f
  }

  /** `folders[folder][fname] = data`. */
  function Store(folders: Folders, folder: string, fname: string, data: Bytes): Folders {
    Put(folders, folder, Put(Folder(folders, folder), fname, data))
  }

  /** `upl.read()` on the upload at position `i`: its bytes the first time,
      nothing once it has been read, since a read consumes the stream. (The
      bucket only holds positions of uploads.) */
  function ReadUpload(uploads: seq<Upload>, read: set<nat>, i: nat): Bytes {
    if i < |uploads| && i !in read then uploads[i].data else []
  }

  /** After reading upload `i`, reading upload `j` gives nothing if it is
      the same upload and its bytes otherwise. */
  lemma ReadAgain(uploads: seq<Upload>, read: set<nat>, i: nat, j: nat)
    requires j < |uploads| && j !in read
    ensures ReadUpload(uploads, read + {i}, j) == if i == j then [] else uploads[j].data
  {
  }

  /** One turn of the loop over the bucket: the bytes read for the role,
      compressed when the role asks for it, go into the role's folder under
      the game name; the portrait also gets a WebP copy. */
  function AddRole(folders: Folders, game: string, role: string, read: Bytes, compress: Bytes -> Bytes, toWebp: Bytes -> Bytes): Folders {
    var (ext, comp) := RoleSpec(role);
    var data := if comp then compress(read) else read;
    var stored := Store(folders, Capitalize(role), game + ext, data);
    if role == PortraitRole then Store(stored, "Portrait", game + ".webp", toWebp(data)) else stored
  }

  /** The loop `for role, upl in bucket.items()`, with `read` the positions
      of the uploads already read. */
  function BuildFolders(folders: Folders, bucket: Table<nat>, uploads: seq<Upload>, read: set<nat>, game: string, compress: Bytes -> Bytes, toWebp: Bytes -> Bytes): Folders
    decreases |bucket|
  {
    if |bucket| == 0 then folders
    else
      var (role, i) := bucket[0];
      var added := AddRole(folders, game, role, ReadUpload(uploads, read, i), compress, toWebp);
      BuildFolders(added, bucket[1..], uploads, read + {i}, game, compress, toWebp)
  }

  lemma CapitalizeRoles()
    ensures Capitalize(BoxRole) == "Box"
    ensures Capitalize(PortraitRole) == "Portrait"
  {
    LowerNoUpper("ox");
    LowerNoUpper("ortrait");
  }

  /** Storing into the `Box` folder of a two-folder dictionary. */
  lemma StoreBox(box: Table<Bytes>, portrait: Table<Bytes>, fname: string, data: Bytes)
    ensures Store([("Box", box), ("Portrait", portrait)], "Box", fname, data) == [("Box", Put(box, fname, data)), ("Portrait", portrait)]
  {
    var f: Folders := [("Box", box), ("Portrait", portrait)];
    assert Folder(f, "Box") == box;
    assert f[1..] == [("Portrait", portrait)];
  }

  /** Storing into the `Portrait` folder of a two-folder dictionary. */
  lemma StorePortrait(box: Table<Bytes>, portrait: Table<Bytes>, fname: string, data: Bytes)
    ensures Store([("Box", box), ("Portrait", portrait)], "Portrait", fname, data) == [("Box", box), ("Portrait", Put(portrait, fname, data))]
  {
    var f: Folders := [("Box", box), ("Portrait", portrait)];
    var rest: Folders := [("Portrait", portrait)];
    assert f[1..] == rest;
    assert Get(rest, "Portrait") == Some(portrait);
    assert Folder(f, "Portrait") == portrait;
    var p := Put(portrait, fname, data);
    assert Put(rest, "Portrait", p) == [("Portrait", p)];
  }

  /** Adding a new name after one other name. */
  lemma PutSecond(k1: string, v1: Bytes, k: string, v: Bytes)
    requires k != k1
    ensures Put([(k1, v1)], k, v) == [(k1, v1), (k, v)]
  {
    var t := [(k1, v1)];
    assert t[1..] == [];
  }

  /** The bytes read for the box land unchanged in `Box` and touch nothing
      else. */
  lemma AddBox(portrait: Table<Bytes>, game: string, data: Bytes, compress: Bytes -> Bytes, toWebp: Bytes -> Bytes)
    ensures AddRole([("Box", []), ("Portrait", portrait)], game, BoxRole, data, compress, toWebp)
      == [("Box", [(game + ".jpg", data)]), ("Portrait", portrait)]
  {
    CapitalizeRoles();
    StoreBox([], portrait, game + ".jpg", data);
  }

  /** The compressed bytes read for the portrait and their WebP copy land in
      `Portrait`, and nothing else changes. */
  lemma AddPortrait(box: Table<Bytes>, game: string, data: Bytes, compress: Bytes -> Bytes, toWebp: Bytes -> Bytes)
    ensures var c := compress(data);
      AddRole([("Box", box), ("Portrait", [])], game, PortraitRole, data, compress, toWebp)
        == [("Box", box), ("Portrait", [(game + ".jpg", c), (game + ".webp", toWebp(c))])]
  {
    CapitalizeRoles();
    var c := compress(data);
    StorePortrait(box, [], game + ".jpg", c);
    StorePortrait(box, [(game + ".jpg", c)], game + ".webp", toWebp(c));
    assert |game + ".jpg"| != |game + ".webp"|;
    PutSecond(game + ".jpg", c, game + ".webp", toWebp(c));
  }

  /** The folder layout of a complete bucket, given the bytes read for the
      box and for the portrait: the box bytes unchanged, the compressed
      portrait bytes, and their WebP copy. */
  function Layout(game: string, boxData: Bytes, portraitData: Bytes, compress: Bytes -> Bytes, toWebp: Bytes -> Bytes): Folders {
    var c := compress(portraitData);
    [("Box", [(game + ".jpg", boxData)]), ("Portrait", [(game + ".jpg", c), (game + ".webp", toWebp(c))])]
  }

  /** One turn of the loop reads the role's upload and marks it read. */
  lemma BuildStep(folders: Folders, x: (string, nat), rest: Table<nat>, uploads: seq<Upload>, read: set<nat>, game: string, compress: Bytes -> Bytes, toWebp: Bytes -> Bytes)
    ensures BuildFolders(folders, [x] + rest, uploads, read, game, compress, toWebp)
      == BuildFolders(AddRole(folders, game, x.0, ReadUpload(uploads, read, x.1), compress, toWebp), rest, uploads, read + {x.1}, game, compress, toWebp)
  {
    assert ([x] + rest)[0] == x;
    assert ([x] + rest)[1..] == rest;
  }

  /** Serving the box: its upload is read into `Box`, and marked read. */
  lemma ServeBox(portraitFiles: Table<Bytes>, box: nat, rest: Table<nat>, uploads: seq<Upload>, read: set<nat>, game: string, compress: Bytes -> Bytes, toWebp: Bytes -> Bytes)
    ensures BuildFolders([("Box", []), ("Portrait", portraitFiles)], [(BoxRole, box)] + rest, uploads, read, game, compress, toWebp)
      == BuildFolders([("Box", [(game + ".jpg", ReadUpload(uploads, read, box))]), ("Portrait", portraitFiles)], rest, uploads, read + {box}, game, compress, toWebp)
  {
    BuildStep([("Box", []), ("Portrait", portraitFiles)], (BoxRole, box), rest, uploads, read, game, compress, toWebp);
    AddBox(portraitFiles, game, ReadUpload(uploads, read, box), compress, toWebp);
  }

  /** Serving the portrait: its upload is read, compressed and converted
      into `Portrait`, and marked read. */
  lemma ServePortrait(boxFiles: Table<Bytes>, portrait: nat, rest: Table<nat>, uploads: seq<Upload>, read: set<nat>, game: string, compress: Bytes -> Bytes, toWebp: Bytes -> Bytes)
    ensures var c := compress(ReadUpload(uploads, read, portrait));
      BuildFolders([("Box", boxFiles), ("Portrait", [])], [(PortraitRole, portrait)] + rest, uploads, read, game, compress, toWebp)
        == BuildFolders([("Box", boxFiles), ("Portrait", [(game + ".jpg", c), (game + ".webp", toWebp(c))])], rest, uploads, read + {portrait}, game, compress, toWebp)
  {
    BuildStep([("Box", boxFiles), ("Portrait", [])], (PortraitRole, portrait), rest, uploads, read, game, compress, toWebp);
    AddPortrait(boxFiles, game, ReadUpload(uploads, read, portrait), compress, toWebp);
  }

  /** Serving the box last. */
  lemma ServeBoxLast(portraitFiles: Table<Bytes>, box: nat, uploads: seq<Upload>, read: set<nat>, game: string, compress: Bytes -> Bytes, toWebp: Bytes -> Bytes)
    ensures BuildFolders([("Box", []), ("Portrait", portraitFiles)], [(BoxRole, box)], uploads, read, game, compress, toWebp)
      == [("Box", [(game + ".jpg", ReadUpload(uploads, read, box))]), ("Portrait", portraitFiles)]
  {
    assert [(BoxRole, box)] == [(BoxRole, box)] + [];
    ServeBox(portraitFiles, box, [], uploads, read, game, compress, toWebp);
  }

  /** Serving the portrait last. */
  lemma ServePortraitLast(boxFiles: Table<Bytes>, portrait: nat, uploads: seq<Upload>, read: set<nat>, game: string, compress: Bytes -> Bytes, toWebp: Bytes -> Bytes)
    ensures var c := compress(ReadUpload(uploads, read, portrait));
      BuildFolders([("Box", boxFiles), ("Portrait", [])], [(PortraitRole, portrait)], uploads, read, game, compress, toWebp)
        == [("Box", boxFiles), ("Portrait", [(game + ".jpg", c), (game + ".webp", toWebp(c))])]
  {
    assert [(PortraitRole, portrait)] == [(PortraitRole, portrait)] + [];
    ServePortrait(boxFiles, portrait, [], uploads, read, game, compress, toWebp);
  }

  /** The loop when the box was bucketed first: the box is read, then the
      portrait, which comes out empty when it is the box's upload. */
  lemma FoldersBoxFirst(uploads: seq<Upload>, game: string, box: nat, portrait: nat, compress: Bytes -> Bytes, toWebp: Bytes -> Bytes)
    ensures var c := compress(ReadUpload(uploads, {} + {box}, portrait));
      BuildFolders(NoFolders, [(BoxRole, box), (PortraitRole, portrait)], uploads, {}, game, compress, toWebp)
        == [("Box", [(game + ".jpg", ReadUpload(uploads, {}, box))]), ("Portrait", [(game + ".jpg", c), (game + ".webp", toWebp(c))])]
  {
    var b, p := (BoxRole, box), (PortraitRole, portrait);
    var bd := ReadUpload(uploads, {}, box);
    var f1: Folders := [("Box", [(game + ".jpg", bd)]), ("Portrait", [])];
    assert [b, p] == [b] + [p];
    ServeBox([], box, [p], uploads, {}, game, compress, toWebp);
    ServePortraitLast([(game + ".jpg", bd)], portrait, uploads, {} + {box}, game, compress, toWebp);
  }

  /** The loop when the portrait was bucketed first: the portrait is read,
      then the box, which comes out empty when it is the portrait's
      upload. */
  lemma FoldersPortraitFirst(uploads: seq<Upload>, game: string, box: nat, portrait: nat, compress: Bytes -> Bytes, toWebp: Bytes -> Bytes)
    ensures var c := compress(ReadUpload(uploads, {}, portrait));
      BuildFolders(NoFolders, [(PortraitRole, portrait), (BoxRole, box)], uploads, {}, game, compress, toWebp)
        == [("Box", [(game + ".jpg", ReadUpload(uploads, {} + {portrait}, box))]), ("Portrait", [(game + ".jpg", c), (game + ".webp", toWebp(c))])]
  {
    var b, p := (BoxRole, box), (PortraitRole, portrait);
    var c := compress(ReadUpload(uploads, {}, portrait));
    var portraitFiles: Table<Bytes> := [(game + ".jpg", c), (game + ".webp", toWebp(c))];
    assert [p, b] == [p] + [b];
    ServePortrait([], portrait, [b], uploads, {}, game, compress, toWebp);
    ServeBoxLast(portraitFiles, box, uploads, {} + {portrait}, game, compress, toWebp);
  }

  /** The folders a complete bucket produces. Two different uploads are
      stored as read; one upload filling both roles is read for the role
      served first and comes out empty for the other. */
  lemma FoldersOfBucket(bucket: Table<nat>, uploads: seq<Upload>, game: string, box: nat, portrait: nat, compress: Bytes -> Bytes, toWebp: Bytes -> Bytes)
    requires box < |uploads| && portrait < |uploads|
    requires bucket == [(BoxRole, box), (PortraitRole, portrait)] || bucket == [(PortraitRole, portrait), (BoxRole, box)]
    ensures var boxFirst := bucket[0].0 == BoxRole;
      var boxData := if box == portrait && !boxFirst then [] else uploads[box].data;
      var portraitData := if box == portrait && boxFirst then [] else uploads[portrait].data;
      BuildFolders(NoFolders, bucket, uploads, {}, game, compress, toWebp) == Layout(game, boxData, portraitData, compress, toWebp)
  {
    if bucket[0].0 == BoxRole {
      FoldersBoxFirst(uploads, game, box, portrait, compress, toWebp);
      ReadAgain(uploads, {}, box, portrait);
      assert ReadUpload(uploads, {}, box) == uploads[box].data;
    } else {
      FoldersPortraitFirst(uploads, game, box, portrait, compress, toWebp);
      ReadAgain(uploads, {}, portrait, box);
      assert ReadUpload(uploads, {}, portrait) == uploads[portrait].data;
    }
  }

  // ----- the bundle -----

  /** A folder's files as bundle entries `<folder>/<file>`. */
  function Prefixed(folder: string, files: Table<Bytes>): (a: Archive)
    ensures |a| == |files|
  {
    seq(|files|, i requires 0 <= i < |files| => (folder + "/" + files[i].0, files[i].1))
  }

  /** The bundle entries for all folders, folder by folder. */
  function FolderEntries(folders: Folders): Archive {
    if |folders| == 0 then [] else Prefixed(folders[0].0, folders[0].1) + FolderEntries(folders[1..])
  }

  /** The processing aborts unless both roles are filled. */
  datatype ThumbError = MissingRole

  /** The Process button after the uploads are in: the bundle's entries, in
      writing order, with `zip` serialising the `portrait.zip` entry. */
  function MakeBundle(uploads: seq<Upload>, game: string, compress: Bytes -> Bytes, toWebp: Bytes -> Bytes, zip: Archive -> Bytes): Result<Archive, ThumbError> {
    var bucket := Bucket(uploads);
    if |bucket| != 2 then Err(MissingRole)
    else
      var folders := BuildFolders(NoFolders, bucket, uploads, {}, game, compress, toWebp);
      Ok(FolderEntries(folders) + [("portrait.zip", zip(Folder(folders, "Portrait")))])
  }

  /** A complete bucket holds the last box and the last portrait upload,
      the role whose first upload came first leading. */
  lemma BucketShape(uploads: seq<Upload>)
    requires |Bucket(uploads)| == 2
    ensures LastFor(uploads, BoxRole).Some? && LastFor(uploads, PortraitRole).Some?
    ensures FirstFor(uploads, BoxRole).Some? && FirstFor(uploads, PortraitRole).Some?
    ensures var box := LastFor(uploads, BoxRole).value;
      var portrait := LastFor(uploads, PortraitRole).value;
      Bucket(uploads) == if FirstFor(uploads, BoxRole).value <= FirstFor(uploads, PortraitRole).value
        then [(BoxRole, box), (PortraitRole, portrait)]
        else [(PortraitRole, portrait), (BoxRole, box)]
  {
    var t := Bucket(uploads);
    BucketComplete(uploads);
    BucketRole(uploads, BoxRole);
    BucketRole(uploads, PortraitRole);
    BucketKeys(uploads);
    assert Keys(t)[0] == t[0].0 && Keys(t)[1] == t[1].0;
    GetAt(t, 0);
    GetAt(t, 1);
  }

  /** The four bundle entries, given the bytes read for the box and for the
      portrait: `Box/<game>.jpg` unchanged, the compressed portrait as
      `Portrait/<game>.jpg`, its WebP copy as `Portrait/<game>.webp`, and
      `portrait.zip` made of exactly the `Portrait` folder's two files. */
  function BundleEntries(game: string, boxData: Bytes, portraitData: Bytes, compress: Bytes -> Bytes, toWebp: Bytes -> Bytes, zip: Archive -> Bytes): Archive {
    var c := compress(portraitData);
    [("Box/" + game + ".jpg", boxData),
     ("Portrait/" + game + ".jpg", c),
     ("Portrait/" + game + ".webp", toWebp(c)),
     ("portrait.zip", zip([(game + ".jpg", c), (game + ".webp", toWebp(c))]))]
  }

  /** The bundle is refused exactly when a role has no upload. Otherwise it
      holds the four `BundleEntries`. The box is the last upload naming
      `box` and the portrait the last naming `portrait`; when that is one
      upload, the role whose first upload came later reads it a second time
      and gets nothing. */
  lemma BundleLayout(uploads: seq<Upload>, game: string, compress: Bytes -> Bytes, toWebp: Bytes -> Bytes, zip: Archive -> Bytes)
    ensures MakeBundle(uploads, game, compress, toWebp, zip).Err? <==>
      LastFor(uploads, BoxRole).None? || LastFor(uploads, PortraitRole).None?
    ensures MakeBundle(uploads, game, compress, toWebp, zip).Ok? ==>
      var box := LastFor(uploads, BoxRole).value;
      var portrait := LastFor(uploads, PortraitRole).value;
      var boxFirst := FirstFor(uploads, BoxRole).value <= FirstFor(uploads, PortraitRole).value;
      var boxData := if box == portrait && !boxFirst then [] else uploads[box].data;
      var portraitData := if box == portrait && boxFirst then [] else uploads[portrait].data;
      MakeBundle(uploads, game, compress, toWebp, zip).value == BundleEntries(game, boxData, portraitData, compress, toWebp, zip)
  {
    BucketComplete(uploads);
    if |Bucket(uploads)| == 2 {
      BucketShape(uploads);
      var box := LastFor(uploads, BoxRole).value;
      var portrait := LastFor(uploads, PortraitRole).value;
      var boxFirst := FirstFor(uploads, BoxRole).value <= FirstFor(uploads, PortraitRole).value;
      var boxData := if box == portrait && !boxFirst then [] else uploads[box].data;
      var portraitData := if box == portrait && boxFirst then [] else uploads[portrait].data;
      FoldersOfBucket(Bucket(uploads), uploads, game, box, portrait, compress, toWebp);
      LayoutEntries(game, boxData, portraitData, compress, toWebp, zip);
    }
  }

  /** Two different uploads for the two roles are each read once, so the
      bundle carries the box upload's bytes and the compressed portrait
      upload's bytes. */
  lemma BundleSeparateUploads(uploads: seq<Upload>, game: string, compress: Bytes -> Bytes, toWebp: Bytes -> Bytes, zip: Archive -> Bytes)
    requires LastFor(uploads, BoxRole).Some? && LastFor(uploads, PortraitRole).Some?
    requires LastFor(uploads, BoxRole) != LastFor(uploads, PortraitRole)
    ensures MakeBundle(uploads, game, compress, toWebp, zip) == Ok(BundleEntries(game,
      uploads[LastFor(uploads, BoxRole).value].data, uploads[LastFor(uploads, PortraitRole).value].data, compress, toWebp, zip))
  {
    BundleLayout(uploads, game, compress, toWebp, zip);
  }

  /** One upload filling both roles is read twice and the role served
      second gets nothing: the portrait is compressed from no bytes when the
      box came first, and the box is stored empty otherwise. */
  lemma BundleSharedUpload(uploads: seq<Upload>, game: string, compress: Bytes -> Bytes, toWebp: Bytes -> Bytes, zip: Archive -> Bytes)
    requires LastFor(uploads, BoxRole).Some? && LastFor(uploads, BoxRole) == LastFor(uploads, PortraitRole)
    ensures var d := uploads[LastFor(uploads, BoxRole).value].data;
      MakeBundle(uploads, game, compress, toWebp, zip) ==
        if FirstFor(uploads, BoxRole).value <= FirstFor(uploads, PortraitRole).value
        then Ok(BundleEntries(game, d, [], compress, toWebp, zip))
        else Ok(BundleEntries(game, [], d, compress, toWebp, zip))
  {
    BundleLayout(uploads, game, compress, toWebp, zip);
  }

  /** A file name under a folder. */
  lemma PathOf(folder: string, game: string, ext: string)
    ensures folder + "/" + (game + ext) == (folder + "/") + game + ext
  {
  }

  /** The bundle entries of the fixed layout. */
  lemma LayoutEntries(game: string, boxData: Bytes, portraitData: Bytes, compress: Bytes -> Bytes, toWebp: Bytes -> Bytes, zip: Archive -> Bytes)
    ensures var folders := Layout(game, boxData, portraitData, compress, toWebp);
      FolderEntries(folders) + [("portrait.zip", zip(Folder(folders, "Portrait")))]
        == BundleEntries(game, boxData, portraitData, compress, toWebp, zip)
  {
    var folders := Layout(game, boxData, portraitData, compress, toWebp);
    var c := compress(portraitData);
    var portraitFiles: Table<Bytes> := [(game + ".jpg", c), (game + ".webp", toWebp(c))];
    var boxFiles: Table<Bytes> := [(game + ".jpg", boxData)];
    var rest: Folders := [("Portrait", portraitFiles)];
    assert folders[1..] == rest;
    assert rest[1..] == [];
    assert FolderEntries(rest) == Prefixed("Portrait", portraitFiles) + FolderEntries([]);
    assert FolderEntries(folders) == Prefixed("Box", boxFiles) + FolderEntries(rest);
    assert Get(rest, "Portrait") == Some(portraitFiles);
    assert Folder(folders, "Portrait") == portraitFiles;
    assert "Box" + "/" == "Box/";
    assert "Portrait" + "/" == "Portrait/";
    PathOf("Box", game, ".jpg");
    PathOf("Portrait", game, ".jpg");
    PathOf("Portrait", game, ".webp");
    var pb := Prefixed("Box", boxFiles);
    assert pb[0] == ("Box" + "/" + (game + ".jpg"), boxData);
    assert pb == [("Box/" + game + ".jpg", boxData)];
    var pp := Prefixed("Portrait", portraitFiles);
    assert pp[0] == ("Portrait" + "/" + (game + ".jpg"), c);
    assert pp[1] == ("Portrait" + "/" + (game + ".webp"), toWebp(c));
    assert pp == [("Portrait/" + game + ".jpg", c), ("Portrait/" + game + ".webp", toWebp(c))];
  }

  /** The download's file name: the game name, or `game` when none was
      typed, followed by `_bundle.zip`. */
  function BundleName(game: string): (r: string)
    ensures |r| > |"_bundle.zip"|
    ensures r[|r| - |"_bundle.zip"|..] == "_bundle.zip"
    ensures game != "" ==> |r| == |game| + |"_bundle.zip"| && r[..|game|] == game
    ensures game == "" ==> r == "game_bundle.zip"
  {
    (if game == "" then "game" else game) + "_bundle.zip"
  }
}
