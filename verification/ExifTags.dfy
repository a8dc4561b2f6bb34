/** Which tags a capture gets, tag by tag. */
module ExifTags {
  import opened Text
  import opened ExifCache

  /** The capture has the tag already, or the rules for names and paths give it. */
  predicate Given(rules: Rules, c: Capture, tag: string) {
    tag in c.tags || tag in rules.filenameTags(c.filename) || tag in rules.pathTags(PathChecked(c))
  }

  /** The capture's file is there: its destination, or without one its source with slashes, unless that is on another host. */
  predicate FileIsThere(disk: Disk, c: Capture) {
    if c.destPath.Some? && c.destPath.value != "" then c.destPath.value in disk
    else !("ssh://" <= c.sourcePath) && WithSlashes(c.sourcePath) in disk
  }

  /** The file is there, and the image has this size. */
  predicate HasSize(disk: Disk, c: Capture, m: Metadata, w: int, h: int) {
    FileIsThere(disk, c) && m.size == Some((w, h)) && w > 0 && h > 0
  }

  /** A tag other than "other" is given, or comes from the extension, or from the image. */
  lemma TagIff(rules: Rules, disk: Disk, c: Capture, m: Metadata, tag: string)
    requires tag != "other"
    ensures tag in Tagged(rules, disk, c, m) <==>
            || Given(rules, c, tag) || tag in ExtensionTags(c.extension)
            || (FileIsThere(disk, c) && tag in ImageTags(rules, m))
  {
  }

  lemma ImageTagsIs(rules: Rules, m: Metadata, tag: string)
    ensures tag in ImageTags(rules, m) <==>
            || (tag == "no_exif" && !m.hasExif) || (tag == "has_gps" && (m.gps.Some? || m.rawGps.Some?))
            || (tag == "camera" && m.hasCamera) || tag in ShapeTags(rules, m)
  {
  }

  lemma ShapeTagsAre(rules: Rules, m: Metadata)
    ensures ShapeTags(rules, m) <= {"panorama", "portrait", "landscape_photo", "screenshot"}
  {
  }

  /** Twice as wide as high is a panorama; else taller than wide a portrait, and wider than high a landscape. */
  lemma ShapeTagsIff(rules: Rules, disk: Disk, c: Capture, m: Metadata, w: int, h: int)
    requires HasSize(disk, c, m, w, h)
    ensures var tags := Tagged(rules, disk, c, m);
            && ("panorama" in tags <==> Given(rules, c, "panorama") || w >= 2 * h)
            && ("portrait" in tags <==> Given(rules, c, "portrait") || h > w)
            && ("landscape_photo" in tags <==> Given(rules, c, "landscape_photo") || h < w < 2 * h)
            && ("screenshot" in tags <==> Given(rules, c, "screenshot") || (rules.isScreenSize(w, h) && m.rawIsEmpty))
  {
    ShapeTagIff(rules, disk, c, m, "panorama");
    ShapeTagIff(rules, disk, c, m, "portrait");
    ShapeTagIff(rules, disk, c, m, "landscape_photo");
    ShapeTagIff(rules, disk, c, m, "screenshot");
  }

  lemma ShapeTagIff(rules: Rules, disk: Disk, c: Capture, m: Metadata, tag: string)
    requires tag in {"panorama", "portrait", "landscape_photo", "screenshot"}
    ensures tag in Tagged(rules, disk, c, m) <==> Given(rules, c, tag) || (FileIsThere(disk, c) && tag in ShapeTags(rules, m))
  {
    ExtensionTagsAre(c.extension);
    TagIff(rules, disk, c, m, tag);
    ImageTagsIs(rules, m, tag);
  }

  /** A size that is missing or makes no picture says nothing. */
  lemma NoShapeWithoutSize(rules: Rules, disk: Disk, c: Capture, m: Metadata, tag: string)
    requires !FileIsThere(disk, c) || m.size.None? || m.size.value.0 <= 0 || m.size.value.1 <= 0
    requires tag in {"panorama", "portrait", "landscape_photo", "screenshot"}
    ensures tag in Tagged(rules, disk, c, m) <==> Given(rules, c, tag)
  {
    ShapeTagIff(rules, disk, c, m, tag);
  }

  lemma ImageTagsIff(rules: Rules, disk: Disk, c: Capture, m: Metadata)
    ensures var tags := Tagged(rules, disk, c, m);
            && ("no_exif" in tags <==> Given(rules, c, "no_exif") || (FileIsThere(disk, c) && !m.hasExif))
            && ("has_gps" in tags <==> Given(rules, c, "has_gps") || (FileIsThere(disk, c) && (m.gps.Some? || m.rawGps.Some?)))
            && ("camera" in tags <==> Given(rules, c, "camera") || (FileIsThere(disk, c) && m.hasCamera))
  {
    ExtensionTagsAre(c.extension);
    ShapeTagsAre(rules, m);
    forall tag | tag in {"no_exif", "has_gps", "camera"}
      ensures tag in Tagged(rules, disk, c, m) <==> Given(rules, c, tag) || (FileIsThere(disk, c) && tag in ImageTags(rules, m))
    {
      TagIff(rules, disk, c, m, tag);
    }
    ImageTagsIs(rules, m, "no_exif");
    ImageTagsIs(rules, m, "has_gps");
    ImageTagsIs(rules, m, "camera");
  }

  /** `extension` is `ext` with any number of dots in front, in upper or lower case. */
  ghost predicate Spells(extension: string, ext: string) {
    exists dots: nat :: Fold(extension) == Dots(dots) + ext && (ext != "" ==> ext[0] != '.')
  }

  function Dots(n: nat): string {
    seq(n, _ => '.')
  }

  lemma {:induction false} LeadingDotsGo(n: nat, s: string)
    requires s != "" ==> s[0] != '.'
    ensures LStripDots(Dots(n) + s) == s
  {
    if n > 0 {
      assert (Dots(n) + s)[1..] == Dots(n - 1) + s;
      LeadingDotsGo(n - 1, s);
    } else {
      assert Dots(0) + s == s;
    }
  }

  lemma ExtensionTagsAre(extension: string)
    ensures ExtensionTags(extension) <= {"gif", "video", "web_image"}
  {
  }

  /** The extension alone makes a gif, a video or a web image, with or without a dot and in any case. */
  lemma ExtensionTagsIff(rules: Rules, disk: Disk, c: Capture, m: Metadata, ext: string)
    requires Spells(c.extension, ext)
    ensures var tags := Tagged(rules, disk, c, m);
            && ("gif" in tags <==> Given(rules, c, "gif") || ext == "gif")
            && ("video" in tags <==> Given(rules, c, "video") || ext in {"mp4", "mov", "avi", "mkv", "3gp", "webm", "flv"})
            && ("web_image" in tags <==> Given(rules, c, "web_image") || ext in {"webp", "avif"})
  {
    var dots: nat :| Fold(c.extension) == Dots(dots) + ext;
    LeadingDotsGo(dots, ext);
    ExtensionSays(c.extension, ext);
    ExtensionTagIff(rules, disk, c, m, "gif");
    ExtensionTagIff(rules, disk, c, m, "video");
    ExtensionTagIff(rules, disk, c, m, "web_image");
  }

  lemma ExtensionSays(extension: string, ext: string)
    requires LStripDots(Fold(extension)) == ext
    ensures "gif" in ExtensionTags(extension) <==> ext == "gif"
    ensures "video" in ExtensionTags(extension) <==> ext in {"mp4", "mov", "avi", "mkv", "3gp", "webm", "flv"}
    ensures "web_image" in ExtensionTags(extension) <==> ext in {"webp", "avif"}
  {
    assert ExtensionTags(extension) == if ext == "gif" then {"gif"} else if ext in VIDEO then {"video"} else if ext in WEB then {"web_image"} else {};
  }

  lemma ExtensionTagIff(rules: Rules, disk: Disk, c: Capture, m: Metadata, tag: string)
    requires tag in {"gif", "video", "web_image"}
    ensures tag in Tagged(rules, disk, c, m) <==> Given(rules, c, tag) || tag in ExtensionTags(c.extension)
  {
    TagIff(rules, disk, c, m, tag);
    ImageTagsIs(rules, m, tag);
    ShapeTagsAre(rules, m);
  }

  /** A capture is never without a tag; it is tagged "other" if there is nothing else to say, and keeps the tags it had. */
  lemma OtherIff(rules: Rules, disk: Disk, c: Capture, m: Metadata)
    ensures var tags := Tagged(rules, disk, c, m);
            && c.tags <= tags && tags != {}
            && ("other" in tags <==> Given(rules, c, "other") || forall tag :: tag in tags ==> tag == "other")
  {
    ExtensionTagsAre(c.extension);
    ImageTagsIs(rules, m, "other");
    ShapeTagsAre(rules, m);
  }

  /** The position comes from the record, else from the raw block, and stays where neither has one or there is no file. */
  lemma PositionOf(rules: Rules, disk: Disk, c: Capture, m: Metadata, p: Gps)
    ensures FileIsThere(disk, c) && m.gps == Some(p) ==> Classified(rules, disk, c, m).gps == Some(p)
    ensures FileIsThere(disk, c) && m.gps == None && m.rawGps == Some(Some(p)) ==> Classified(rules, disk, c, m).gps == Some(p)
    ensures !FileIsThere(disk, c) || (m.gps == None && (m.rawGps == None || m.rawGps == Some(None))) ==>
            Classified(rules, disk, c, m).gps == c.gps
  {
  }

  /** A date is taken from the image only where the capture has none, and nothing else about the capture changes. */
  lemma DateAndRest(rules: Rules, disk: Disk, c: Capture, m: Metadata)
    ensures var after := Classified(rules, disk, c, m);
            && (c.captureDate != "" ==> after.captureDate == c.captureDate)
            && (c.captureDate == "" && rules.exifDate(m.dateTaken).Some? ==> after.captureDate == rules.exifDate(m.dateTaken).value)
            && (c.captureDate == "" && rules.exifDate(m.dateTaken).None? ==> after.captureDate == "")
            && after.id == c.id && after.filename == c.filename && after.extension == c.extension
            && after.sourcePath == c.sourcePath && after.destPath == c.destPath && after.sshRemotePath == c.sshRemotePath
  {
  }

  /** The file whose record is used: the destination, the source without "ssh://", or the source with slashes. */
  lemma RecordedPath(c: Capture)
    ensures c.destPath.Some? && c.destPath.value != "" ==> LocalPath(c) == c.destPath.value
    ensures (c.destPath.None? || c.destPath.value == "") && "ssh://" <= c.sourcePath ==> c.sourcePath == "ssh://" + LocalPath(c)
    ensures (c.destPath.None? || c.destPath.value == "") && !("ssh://" <= c.sourcePath) ==>
            && |LocalPath(c)| == |c.sourcePath|
            && forall i :: 0 <= i < |c.sourcePath| ==> LocalPath(c)[i] == if c.sourcePath[i] == '\\' then '/' else c.sourcePath[i]
  {
  }

  /** The path rules see the path on the other host if there is one, else the source, with slashes. */
  lemma PathForRules(c: Capture, path: string)
    requires path == if c.sshRemotePath == None || c.sshRemotePath == Some("") then c.sourcePath else c.sshRemotePath.value
    ensures |PathChecked(c)| == |path|
    ensures forall i :: 0 <= i < |path| ==> PathChecked(c)[i] == if path[i] == '\\' then '/' else path[i]
  {
  }

  /** A file is read again unless an error-free record of this path has the file's time. */
  lemma ReadAgainIff(disk: Disk, cache: Cache, c: Capture, path: string)
    requires path == LocalPath(c)
    ensures !Unchanged(disk, cache, c) <==>
            || c.id !in cache || cache[c.id].error != "" || cache[c.id].path != path
            || path !in disk || cache[c.id].mtime != disk[path].mtime
  {
  }

  /** What is stored of a file that was read: its path, its time, when, and what the bytes decode to. */
  lemma RecordOfFile(rules: Rules, disk: Disk, path: string, now: int)
    ensures var r := Extract(rules, disk, path, now);
            && r.path == path && r.extractedAt == now
            && (path in disk ==> r.mtime == disk[path].mtime && (r.metadata, r.error) == rules.decode(disk[path].content))
            && (path !in disk ==> r.mtime == 0 && r.error == "File not found" && !r.metadata.hasExif && r.metadata.gps == None
                                  && r.metadata.size == None && r.metadata.dateTaken == "" && !r.metadata.hasCamera)
  {
  }
}
