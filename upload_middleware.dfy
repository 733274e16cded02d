/** The avatar upload middleware: multer's disk storage with a computed
    name, a filter on the declared MIME type, and a size limit. */
module UploadMiddleware {
  import opened Common
  import opened NodePath

  /** `limits: { fileSize: 1024 * 1024 * 5 }`, in bytes. */
  const MAX_AVATAR_BYTES: nat := 1024 * 1024 * 5

  lemma MaxAvatarIsFiveMebibytes()
    ensures MAX_AVATAR_BYTES == 5242880
  {
  }

  const IMAGE_PREFIX: string := "image/"

  /** fileFilter: accepts exactly the MIME types beginning with "image/";
      the file's name plays no part. */
  function FileFilter(mimetype: string): (accept: bool)
    ensures accept <==> |mimetype| >= 6 && mimetype[..6] == "image/"
  {
    StartsWith(mimetype, IMAGE_PREFIX)
  }

  /** Every subtype of "image/" passes, any other type is refused. */
  lemma FileFilterAcceptsImages(subtype: string, other: string)
    requires !StartsWith(other, IMAGE_PREFIX)
    ensures FileFilter("image/" + subtype)
    ensures !FileFilter(other)
  {
    assert ("image/" + subtype)[..6] == "image/";
  }

  /** The name the storage computes: `${userId}${path.extname(originalname)}`. */
  function StorageName(userId: string, originalname: string): (r: string)
    ensures |r| >= |userId| && r[..|userId|] == userId
    ensures var ext := r[|userId|..]; ext == "" || (ext[0] == '.' && '.' !in ext[1..] && '/' !in ext)
    ensures r[|userId|..] == ExtName(originalname)
  {
    var r := userId + ExtName(originalname);
    assert r[|userId|..] == ExtName(originalname);
    r
  }

  /** "photo.png" is stored under the user id with ".png"; a name without a
      dot, or a dot file, under the bare user id. */
  lemma StorageNameExamples(userId: string, stem: string, ext: string)
    requires stem != "" && stem[0] != '.' && '/' !in stem && '/' !in ext && '.' !in ext
    ensures StorageName(userId, stem + "." + ext) == userId + "." + ext
    ensures StorageName(userId, "." + ext) == userId
  {
    var named, dotted := stem + "." + ext, "." + ext;
    ExtNameOfDottedName(stem, ext);
    assert StorageName(userId, named) == userId + ExtName(named) == userId + "." + ext;
    ExtNameOfDotFile(ext);
    assert StorageName(userId, dotted) == userId + ExtName(dotted) == userId + "";
  }

  /** multer's `file.path`: the destination directory joined with the file
      name. `path.join` also normalises the result; that is left out, so the
      join is exact only for normalised destinations (no trailing '/', no
      `.` or `..` segments), as the `<userId><ext>` destinations are. */
  function StoredPath(destination: string, filename: string): (path: string)
    ensures StartsWith(path, destination)
    ensures filename != "" && '/' !in filename ==> Basename(path) == filename
  {
    if filename != "" && '/' !in filename then
      BasenameOfJoin(destination, filename);
      destination + "/" + filename
    else
      destination + "/" + filename
  }

  /** As written, the computed name goes to the `destination` callback, so it
      names a directory, and multer's own random file name (`generated`) is
      the file's name. The avatar the handler records, the basename of the
      path, is then the random name whatever the user id is. */
  function AvatarNameAsWritten(userId: string, originalname: string, generated: string): (name: string)
    requires generated != "" && '/' !in generated
    ensures name == generated
  {
    BasenameOfJoin(StorageName(userId, originalname), generated);
    Basename(StoredPath(StorageName(userId, originalname), generated))
  }

  /** The as-written avatar differs from the intended one unless multer's
      random name happens to equal the computed name: two users who upload
      get names that say nothing about who they are. */
  lemma AsWrittenNameIsNotTheUsers(uploadDir: string, userId: string, originalname: string, generated: string)
    requires generated != "" && '/' !in generated && userId != "" && '/' !in userId
    requires generated != userId + ExtName(originalname)
    ensures AvatarNameAsWritten(userId, originalname, generated) != AvatarNameIntended(uploadDir, userId, originalname)
  {
  }

  /** The evidently intended storage: files go to the avatar directory under
      the computed name, so the recorded avatar is the user id followed by
      the original extension. */
  function AvatarNameIntended(uploadDir: string, userId: string, originalname: string): (name: string)
    requires userId != "" && '/' !in userId
    ensures name == userId + ExtName(originalname)
    ensures '/' !in name
  {
    var file := StorageName(userId, originalname);
    assert '/' !in file by {
      assert file == userId + ExtName(originalname);
      assert forall k :: 0 <= k < |file| ==> file[k] != '/' by {
        forall k | 0 <= k < |file| ensures file[k] != '/' {
          if k < |userId| { assert file[k] == userId[k]; }
          else { assert file[k] == ExtName(originalname)[k - |userId|]; }
        }
      }
    }
    BasenameOfJoin(uploadDir, file);
    Basename(StoredPath(uploadDir, file))
  }

  /** With the intended storage two users with distinct ids of one length
      (uuids) never share an avatar file. */
  lemma IntendedNamesAreDistinct(uploadDir: string, a: string, b: string, nameA: string, nameB: string)
    requires a != "" && '/' !in a && b != "" && '/' !in b
    requires |a| == |b| && a != b
    ensures AvatarNameIntended(uploadDir, a, nameA) != AvatarNameIntended(uploadDir, b, nameB)
  {
    var x := AvatarNameIntended(uploadDir, a, nameA);
    var y := AvatarNameIntended(uploadDir, b, nameB);
    assert x[..|a|] == a && y[..|b|] == b;
  }
}
