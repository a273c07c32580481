/** Captions of transferred files: the user's custom caption with the file
    name filled in, or the original caption and its formatting; and the
    captions of the parts of a split video. */
module Captions {
  import opened Wrappers
  import opened Text

  // ---------------------------------------------------------------------------
  // POSIX path pieces

  /** `str.rfind`: the last index of `c`, or -1. */
  function RFind(s: string, c: char): (r: int)
    ensures -1 <= r < |s|
    ensures r >= 0 ==> s[r] == c
    ensures forall k :: r < k < |s| ==> s[k] != c
    decreases |s|
  {
    if s == [] then -1
    else if s[|s| - 1] == c then |s| - 1
    else RFind(s[..|s| - 1], c)
  }

  /** `os.path.basename`: what follows the last `/`. */
  function Basename(p: string): (r: string)
    ensures '/' !in r
    ensures |r| <= |p| && p[|p| - |r|..] == r
  {
    p[RFind(p, '/') + 1..]
  }

  /** `os.path.splitext`: the extension runs from the last dot of the last
      path component, unless everything before that dot in the component
      is dots (a hidden file has no extension). */
  function Splitext(p: string): (r: (string, string))
    ensures r.0 + r.1 == p
    ensures r.1 == [] || (r.1[0] == '.' && '.' !in r.1[1..] && '/' !in r.1)
  {
    var sep := RFind(p, '/');
    var dot := RFind(p, '.');
    if dot > sep && exists k :: sep + 1 <= k < dot && p[k] != '.' then
      var ext := p[dot..];
      assert '.' !in ext[1..] by {
        forall k | 1 <= k < |ext| ensures ext[k] != '.' {
          assert ext[k] == p[dot + k];
        }
      }
      assert '/' !in ext by {
        forall k | 0 <= k < |ext| ensures ext[k] != '/' {
          assert ext[k] == p[dot + k];
        }
      }
      (p[..dot], ext)
    else (p, [])
  }

  /** `os.path.splitext(os.path.basename(file))[0]`, what `{filename}`
      becomes. */
  function Stem(file: string): string {
    Splitext(Basename(file)).0
  }

  /** The upload's path is `rename/<name><ext>`, with `<ext>` the extension
      of the downloaded file, so the stem is the sanitised name itself (an
      extension the name already had stays in it). */
  lemma StemOfRenamed(name: string, ext: string)
    requires '/' !in name
    requires exists k :: 0 <= k < |name| && name[k] != '.'
    requires ext != [] && ext[0] == '.' && '.' !in ext[1..] && '/' !in ext
    ensures Stem("rename/" + name + ext) == name
  {
    var b := name + ext;
    assert '/' !in b by {
      forall k | 0 <= k < |b| ensures b[k] != '/' {
        if k < |name| { assert b[k] == name[k]; } else { assert b[k] == ext[k - |name|]; }
      }
    }
    assert "rename/" + name + ext == "rename/" + b;
    BasenameOfRenamed(b);
    SplitextOfNamed(name, ext);
  }

  lemma BasenameOfRenamed(b: string)
    requires '/' !in b
    ensures Basename("rename/" + b) == b
  {
    var p := "rename/" + b;
    assert p[6] == '/';
    assert RFind(p, '/') == 6 by {
      forall k | 6 < k < |p| ensures p[k] != '/' {
        assert p[k] == b[k - 7];
      }
    }
    assert p[7..] == b;
  }

  lemma SplitextOfNamed(name: string, ext: string)
    requires '/' !in name
    requires exists k :: 0 <= k < |name| && name[k] != '.'
    requires ext != [] && ext[0] == '.' && '.' !in ext[1..] && '/' !in ext
    ensures Splitext(name + ext).0 == name
  {
    var b := name + ext;
    var n := |name|;
    assert RFind(b, '/') == -1 by {
      forall k | 0 <= k < |b| ensures b[k] != '/' {
        if k < n { assert b[k] == name[k]; } else { assert b[k] == ext[k - n]; }
      }
    }
    assert b[n] == '.';
    assert RFind(b, '.') == n by {
      forall k | n < k < |b| ensures b[k] != '.' {
        assert b[k] == ext[k - n] == ext[1..][k - n - 1];
      }
    }
    var k :| 0 <= k < |name| && name[k] != '.';
    assert b[k] == name[k];
    assert b[..n] == name;
  }

  // ---------------------------------------------------------------------------
  // Caption resolution

  const Placeholder: string := "{filename}"

  datatype Resolved<E> = Resolved(caption: Option<string>, entities: Option<E>)

  /** Python truthiness of an optional caption. */
  predicate IsSet(caption: Option<string>) {
    caption.Some? && caption.value != []
  }

  /** Caption resolution of `_send_media`: a set custom caption replaces the
      original and drops its formatting entities, with every `{filename}`
      filled in when the user asked for it; otherwise the original caption
      and its entities pass through untouched. */
  function ResolveCaption<E>(custom: Option<string>, useFilename: bool, file: string,
                             original: Option<string>, originalEntities: Option<E>): (r: Resolved<E>)
    ensures IsSet(custom) ==> r.entities.None? && r.caption.Some?
    ensures IsSet(custom) && !useFilename ==> r.caption == custom
    ensures !IsSet(custom) ==> r == Resolved(original, originalEntities)
  {
    if IsSet(custom) then
      if useFilename then Resolved(Some(ReplaceAll(custom.value, Placeholder, Stem(file))), None)
      else Resolved(custom, None)
    else Resolved(original, originalEntities)
  }

  /** The first `{filename}` becomes the file's stem, with the text before
      it kept as is. */
  lemma PlaceholderFilled<E>(pre: string, post: string, file: string,
                             original: Option<string>, originalEntities: Option<E>)
    requires '{' !in pre
    ensures var r := ResolveCaption(Some(pre + Placeholder + post), true, file, original, originalEntities);
      r == Resolved(Some(pre + Stem(file) + ReplaceAll(post, Placeholder, Stem(file))), None)
  {
    NotContainsWithoutFirstChar(pre, Placeholder);
    ReplacePlaceholderSubstituted(pre, Placeholder, Stem(file), post);
  }

  /** A custom caption with no `{filename}` is used verbatim even when the
      flag is set. */
  lemma CaptionWithoutPlaceholder<E>(caption: string, file: string,
                                     original: Option<string>, originalEntities: Option<E>)
    requires caption != [] && !Contains(caption, Placeholder)
    ensures ResolveCaption(Some(caption), true, file, original, originalEntities) == Resolved(Some(caption), None)
  {
    ReplaceAbsent(caption, Placeholder, Stem(file));
  }

  // ---------------------------------------------------------------------------
  // Part captions of a split video

  const JoinNote: string := "\n**Note:** Use any video joiner to combine parts after download."

  /** `msg.caption or msg.video.file_name` as an f-string shows it: a
      missing file name prints as `None`. */
  function PartTitle(caption: Option<string>, fileName: Option<string>): (r: string)
    ensures IsSet(caption) ==> r == caption.value
    ensures r == [] <==> !IsSet(caption) && fileName == Some([])
  {
    if IsSet(caption) then caption.value
    else if fileName.Some? then fileName.value
    else "None"
  }

  function PartHeader(i: int, n: int, title: string): string {
    "**" + title + "**\n" + "Part " + IntToString(i) + " of " + IntToString(n) + "\n"
  }

  /** The caption of part `i` of `n`: the bold title and the part line, and
      on the first part only the note about joining the parts. */
  function PartCaption(i: int, n: int, title: string): (r: string)
    ensures StartsWith(r, PartHeader(i, n, title))
    ensures i == 1 <==> |r| > |PartHeader(i, n, title)|
    ensures i == 1 ==> r[|PartHeader(i, n, title)|..] == JoinNote
  {
    var header := PartHeader(i, n, title);
    if i == 1 then header + JoinNote else header
  }

  /** Two parts of the same video never share a caption. */
  lemma PartCaptionsDistinct(i: int, j: int, n: int, title: string)
    requires i != j
    ensures PartCaption(i, n, title) != PartCaption(j, n, title)
  {
    var pre := "**" + title + "**\n" + "Part ";
    var xi := PartCaptionShape(i, n, title);
    var xj := PartCaptionShape(j, n, title);
    NumberedTextsDiffer(pre, i, j, xi, xj);
  }

  /** A part caption is the title prefix, the part number, then a text
      starting with a space. */
  lemma PartCaptionShape(i: int, n: int, title: string) returns (x: string)
    ensures x != [] && x[0] == ' '
    ensures PartCaption(i, n, title) == "**" + title + "**\n" + "Part " + IntToString(i) + x
  {
    x := " of " + IntToString(n) + "\n" + (if i == 1 then JoinNote else "");
  }
}
