/**
 * Tags, tag lists and the text of a tag file (src/bagit/tag.rs). A tag is a
 * label and a value, kept verbatim; a tag list is an ordered vector of tags
 * that can grow at the end and lose every tag with a given label.
 */
module Tags {
  import opened Common
  import opened Errors
  import Utf8
  import LineSplit
  import Io

  /** `Tag::new`: the label and the value as given; nothing is validated. */
  datatype Tag = Tag(tagLabel: string, value: string)

  /** Reference definition of `retain(|e| e.label != label)`: the tags with another label, in order. */
  function Without(tags: seq<Tag>, name: string): seq<Tag>
  {
    if tags == [] then []
    else (if tags[0].tagLabel != name then [tags[0]] else []) + Without(tags[1..], name)
  }

  /** A tag is kept exactly when it was there and its label differs, compared exactly. */
  lemma {:induction false} WithoutMembers(tags: seq<Tag>, name: string)
    ensures forall t :: t in Without(tags, name) <==> t in tags && t.tagLabel != name
  {
    if tags != [] {
      WithoutMembers(tags[1..], name);
      assert tags == [tags[0]] + tags[1..];
    }
  }

  /** Filtering distributes over concatenation, so the kept tags stay in their order. */
  lemma {:induction false} WithoutAppend(a: seq<Tag>, b: seq<Tag>, name: string)
    ensures Without(a + b, name) == Without(a, name) + Without(b, name)
  {
    if a == [] {
      assert a + b == b;
    } else {
      assert (a + b)[0] == a[0] && (a + b)[1..] == a[1..] + b;
      WithoutAppend(a[1..], b, name);
    }
  }

  /** Each tag with another label keeps its number of occurrences; those with the label have none. */
  lemma {:induction false} WithoutCount(tags: seq<Tag>, name: string, t: Tag)
    ensures Count(Without(tags, name), t) == if t.tagLabel == name then 0 else Count(tags, t)
  {
    if tags != [] {
      WithoutCount(tags[1..], name, t);
      var head := if tags[0].tagLabel != name then [tags[0]] else [];
      CountAppend(head, Without(tags[1..], name), t);
    }
  }

  lemma {:induction false} CountAppend(a: seq<Tag>, b: seq<Tag>, t: Tag)
    ensures Count(a + b, t) == Count(a, t) + Count(b, t)
  {
    if a == [] {
      assert a + b == b;
    } else {
      assert (a + b)[0] == a[0] && (a + b)[1..] == a[1..] + b;
      CountAppend(a[1..], b, t);
    }
  }

  /** Removing a label a second time changes nothing. */
  lemma {:induction false} WithoutIdempotent(tags: seq<Tag>, name: string)
    ensures Without(Without(tags, name), name) == Without(tags, name)
  {
    if tags != [] {
      WithoutIdempotent(tags[1..], name);
      var head := if tags[0].tagLabel != name then [tags[0]] else [];
      WithoutAppend(head, Without(tags[1..], name), name);
      if head != [] {
        assert Without(head, name) == head by { assert head[1..] == []; }
      }
    }
  }

  /** The list is unchanged exactly when no tag has the label. */
  lemma {:induction false} WithoutIdentity(tags: seq<Tag>, name: string)
    ensures Without(tags, name) == tags <==> forall k | 0 <= k < |tags| :: tags[k].tagLabel != name
  {
    WithoutLength(tags, name);
    if tags != [] {
      WithoutIdentity(tags[1..], name);
      assert forall k | 1 <= k < |tags| :: tags[k] == tags[1..][k - 1];
      if tags[0].tagLabel != name {
        if Without(tags, name) == tags {
          assert Without(tags[1..], name) == (tags)[1..];
        }
      } else {
        WithoutLength(tags[1..], name);
        assert |Without(tags, name)| <= |tags[1..]| < |tags|;
      }
    }
  }

  lemma {:induction false} WithoutLength(tags: seq<Tag>, name: string)
    ensures |Without(tags, name)| <= |tags|
  {
    if tags != [] {
      WithoutLength(tags[1..], name);
    }
  }

  /** A tag that was just added is removed again with its label, and only it among the new ones. */
  lemma AddThenRemove(tags: seq<Tag>, name: string, value: string)
    ensures Without(tags + [Tag(name, value)], name) == Without(tags, name)
  {
    WithoutAppend(tags, [Tag(name, value)], name);
    assert Without([Tag(name, value)], name) == [] by { assert [Tag(name, value)][1..] == []; }
  }

  /** Labels are compared case-sensitively. */
  lemma RemoveIsCaseSensitive()
    ensures Without([Tag("Contact-Name", "a")], "contact-name") == [Tag("Contact-Name", "a")]
  {
    assert [Tag("Contact-Name", "a")][1..] == [];
  }

  /** `TagList`: the tags in insertion order. Iterating over the list visits `tags` in order. */
  class TagList {
    var tags: seq<Tag>

    /** `TagList::new` (also `Default::default`): no tags. */
    constructor()
      ensures tags == []
    {
      tags := [];
    }

    /** `TagList::with_capacity`: no tags; the capacity is an allocation hint only. */
    constructor WithCapacity(capacity: nat)
      ensures tags == []
    {
      tags := [];
    }

    /** `add_tag`: one tag at the end, every earlier tag untouched. */
    method AddTag(name: string, value: string)
      modifies this
      ensures tags == old(tags) + [Tag(name, value)]
    {
      tags := tags + [Tag(name, value)];
    }

    /** `remove_tags`: `retain` keeps the tags whose label is not exactly `label`. */
    method RemoveTags(name: string)
      modifies this
      ensures tags == Without(old(tags), name)
    {
      var kept := [];
      var i := 0;
      while i < |tags|
        invariant 0 <= i <= |tags|
        invariant tags == old(tags) && kept == Without(tags[..i], name)
      {
        assert tags[..i + 1] == tags[..i] + [tags[i]];
        WithoutAppend(tags[..i], [tags[i]], name);
        assert [tags[i]][1..] == [];
        if tags[i].tagLabel != name {
          kept := kept + [tags[i]];
        }
        i := i + 1;
      }
      assert tags[..i] == tags;
      tags := kept;
    }
  }

  /** The text of one tag line, without its terminator: `"{}: {}"`. */
  function TagLineText(t: Tag): string
  {
    t.tagLabel + ": " + t.value
  }

  /** Reference definition of the tag file: one `writeln!` line per tag, in order. */
  function TagFileText(tags: seq<Tag>): string
  {
    if tags == [] then [] else TagLineText(tags[0]) + "\n" + TagFileText(tags[1..])
  }

  lemma {:induction false} TagFileTextAppend(a: seq<Tag>, b: seq<Tag>)
    ensures TagFileText(a + b) == TagFileText(a) + TagFileText(b)
  {
    if a == [] {
      assert a + b == b;
    } else {
      assert (a + b)[0] == a[0] && (a + b)[1..] == a[1..] + b;
      TagFileTextAppend(a[1..], b);
    }
  }

  /**
   * `write_tag_file`. The file system is reduced to two parameters: the
   * failure, if any, of `File::create`, and the failure, if any, of the
   * `writeln!` of one tag (its index and kind). `written` is the text that
   * reached the writer before the outcome.
   */
  method WriteTagFile(tags: TagList, destination: Path, createFailure: Option<IoErrorKind>,
                      writeFailure: Option<(nat, IoErrorKind)>)
    returns (r: Result<()>, written: string)
    ensures createFailure.Some? ==> r == Err(IoCreate(createFailure.value, destination)) && written == []
    ensures createFailure.None? && writeFailure.Some? && writeFailure.value.0 < |tags.tags| ==>
              r == Err(IoWrite(writeFailure.value.1, destination))
              && written == TagFileText(tags.tags[..writeFailure.value.0])
    ensures createFailure.None? && (writeFailure.None? || writeFailure.value.0 >= |tags.tags|) ==>
              r == Ok(()) && written == TagFileText(tags.tags)
  {
    if createFailure.Some? {
      return Err(IoCreate(createFailure.value, destination)), [];
    }
    written := [];
    var i := 0;
    while i < |tags.tags|
      invariant 0 <= i <= |tags.tags|
      invariant written == TagFileText(tags.tags[..i])
      invariant writeFailure.Some? ==> i <= writeFailure.value.0
    {
      if writeFailure.Some? && writeFailure.value.0 == i {
        return Err(IoWrite(writeFailure.value.1, destination)), written;
      }
      var t := tags.tags[i];
      assert tags.tags[..i + 1] == tags.tags[..i] + [t];
      TagFileTextAppend(tags.tags[..i], [t]);
      assert TagFileText([t]) == TagLineText(t) + "\n" + TagFileText([]) by { assert [t][1..] == []; }
      written := written + (TagLineText(t) + "\n");
      i := i + 1;
    }
    assert tags.tags[..i] == tags.tags;
    return Ok(()), written;
  }

  /** The UTF-8 lines of a tag file, one per tag, without terminators. */
  function EncodedLines(tags: seq<Tag>): (r: seq<seq<byte>>)
    ensures |r| == |tags|
    ensures forall k | 0 <= k < |tags| :: r[k] == Utf8.Encode(TagLineText(tags[k]))
  {
    if tags == [] then [] else [Utf8.Encode(TagLineText(tags[0]))] + EncodedLines(tags[1..])
  }

  /** The lines of the tag file as the tag reader yields them. */
  function TagItems(tags: seq<Tag>): (r: seq<Result<string>>)
    ensures |r| == |tags|
    ensures forall k | 0 <= k < |tags| :: r[k] == Ok(TagLineText(tags[k]))
  {
    seq(|tags|, k requires 0 <= k < |tags| => Ok(TagLineText(tags[k])))
  }

  /** A tag whose label and value hold no CR or LF, and whose label does not start with a space or a tab. */
  predicate Writable(t: Tag)
  {
    NoCrLf(t.tagLabel) && NoCrLf(t.value) && !Io.IsContinuation(t.tagLabel)
  }

  lemma TagLineNoCrLf(t: Tag)
    requires Writable(t)
    ensures NoCrLf(TagLineText(t)) && !Io.IsContinuation(TagLineText(t))
  {
    var s := TagLineText(t);
    forall k | 0 <= k < |s|
      ensures s[k] != '\r' && s[k] != '\n'
    {
      if k < |t.tagLabel| {
        assert s[k] == t.tagLabel[k];
      } else if k >= |t.tagLabel| + 2 {
        assert s[k] == t.value[k - |t.tagLabel| - 2];
      }
    }
    if t.tagLabel != [] {
      assert s[0] == t.tagLabel[0];
    }
  }

  /** The UTF-8 bytes of the tag file are its encoded lines, each ended by an LF. */
  lemma {:induction false} EncodedTagFile(tags: seq<Tag>)
    ensures Utf8.Encode(TagFileText(tags)) == LineSplit.JoinLf(EncodedLines(tags))
  {
    if tags != [] {
      EncodedTagFile(tags[1..]);
      var line := TagLineText(tags[0]);
      Utf8.EncodeAppend(line + "\n", TagFileText(tags[1..]));
      Utf8.EncodeAppend(line, "\n");
      assert Utf8.Encode("\n") == [LF_B] by { assert "\n"[1..] == []; }
      assert EncodedLines(tags)[1..] == EncodedLines(tags[1..]);
    }
  }

  /** Split into lines, the UTF-8 bytes of the tag file are the encoded tag lines. */
  lemma TagFileSplit(tags: seq<Tag>)
    requires forall k | 0 <= k < |tags| :: Writable(tags[k])
    ensures LineSplit.Lines(Utf8.Encode(TagFileText(tags))) == EncodedLines(tags)
  {
    var lines := EncodedLines(tags);
    EncodedTagFile(tags);
    forall k | 0 <= k < |tags|
      ensures NoCrLfBytes(lines[k])
    {
      TagLineNoCrLf(tags[k]);
      Utf8.EncodeNoCrLf(TagLineText(tags[k]));
    }
    LineSplit.LinesJoinLf(lines);
  }

  /** The encoded tag lines decode to the tag lines. */
  lemma DecodeTagLines(tags: seq<Tag>)
    ensures LineSplit.MapToString(EncodedLines(tags)) == TagItems(tags)
  {
    var items := LineSplit.MapToString(EncodedLines(tags));
    forall k | 0 <= k < |tags|
      ensures items[k] == Ok(TagLineText(tags[k]))
    {
      LineSplit.BytesToStringEncode(TagLineText(tags[k]));
    }
  }

  /** The tag file, split into lines and decoded, is one line per tag. */
  lemma TagFileLines(tags: seq<Tag>)
    requires forall k | 0 <= k < |tags| :: Writable(tags[k])
    ensures LineSplit.MapToString(LineSplit.Lines(Utf8.Encode(TagFileText(tags)))) == TagItems(tags)
  {
    TagFileSplit(tags);
    DecodeTagLines(tags);
  }

  /** The tag lines of writable tags are passed through the fold unchanged. */
  lemma TagItemsUnjoined(tags: seq<Tag>)
    requires forall k | 0 <= k < |tags| :: Writable(tags[k])
    ensures Io.Fold(None, TagItems(tags)) == TagItems(tags)
  {
    var items := TagItems(tags);
    forall k | 0 <= k < |tags|
      ensures !Io.IsContinuation(TagLineText(tags[k]))
    {
      TagLineNoCrLf(tags[k]);
    }
    assert Io.Unjoined(items);
    Io.FoldIdentity(None, items);
    assert Io.Held(None) + items == items;
  }

  /**
   * A tag file written from tags that are fit to be written reads back,
   * through the tag-line reader's fold, as exactly one line per tag in
   * order: no line is lost, split or joined to another.
   */
  lemma TagFileReadsBack(tags: seq<Tag>)
    requires forall k | 0 <= k < |tags| :: Writable(tags[k])
    ensures Io.Fold(None, LineSplit.MapToString(LineSplit.Lines(Utf8.Encode(TagFileText(tags))))) == TagItems(tags)
  {
    TagFileLines(tags);
    TagItemsUnjoined(tags);
  }
}
