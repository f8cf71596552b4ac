/** Media and tag normalisation in the post data-access functions: the tag
    string typed into the post form becomes the stored tag array, and a
    storage "preview" link is rewritten to a direct "view" link. */
module Media {
  import opened Common
  import opened Text

  const PreviewSegment: string := "/preview"
  const ViewSegment: string := "/view"

  /** `post.tags?.replace(/ /g, "").split(",") || []`: spaces (and only
      the space character) are stripped, then the string is cut at commas;
      an absent tag string gives no tags. */
  function ParseTags(tags: Option<string>): seq<string> {
    match tags
    case None => []
    case Some(s) => Split(RemoveChar(s, ' '), ',')
  }

  /** An absent tag string gives no tags; the empty string gives one empty
      tag, because `"".split(",")` is `[""]`. */
  lemma ParseTagsEdgeCases()
    ensures ParseTags(None) == []
    ensures ParseTags(Some("")) == [""]
  {
  }

  /** One tag per comma plus one; no tag holds a space or a comma; joining
      the tags with commas gives the input with its spaces removed. */
  lemma ParseTagsShape(s: string)
    ensures |ParseTags(Some(s))| == CountChar(s, ',') + 1
    ensures forall k :: 0 <= k < |ParseTags(Some(s))| ==>
              ' ' !in ParseTags(Some(s))[k] && ',' !in ParseTags(Some(s))[k]
    ensures Join(ParseTags(Some(s)), ',') == RemoveChar(s, ' ')
  {
    var t := RemoveChar(s, ' ');
    RemoveCharSpec(s, ' ');
    SplitCount(t, ',');
    SplitPieces(t, ',');
    JoinSplit(t, ',');
  }

  /** The edit form shows stored tags as `tags.join(",")`; parsing that
      text again gives the same tags back whenever there is at least one
      tag and no tag holds a space or a comma. */
  lemma EditFormTagsRoundTrip(tags: seq<string>)
    requires |tags| >= 1
    requires forall k :: 0 <= k < |tags| ==> ' ' !in tags[k] && ',' !in tags[k]
    ensures ParseTags(Some(Join(tags, ','))) == tags
  {
    var j := Join(tags, ',');
    if ' ' in j {
      JoinChars(tags, ',', ' ');
    }
    RemoveCharAbsent(j, ' ');
    SplitJoin(tags, ',');
  }

  /** A post with no tags, shown in the edit form as `""` and saved again,
      comes back with one empty tag. */
  lemma EditFormEmptyTagsBecomeOneEmptyTag()
    ensures ParseTags(Some(Join([], ','))) == [""]
  {
  }

  /** `url.replace('/preview', '/view')`. */
  function ViewUrl(url: string): string {
    ReplaceFirst(url, PreviewSegment, ViewSegment)
  }

  /** Only the leftmost `/preview` becomes `/view`; the text around it, a
      later `/preview` included, is kept. */
  lemma ViewUrlRewritesFirstPreview(url: string, i: int)
    requires IsFirstOccurrence(url, PreviewSegment, i)
    ensures ViewUrl(url) == url[..i] + ViewSegment + url[i + |PreviewSegment|..]
  {
    ReplaceFirstAt(url, PreviewSegment, ViewSegment, i);
  }

  /** A URL without `/preview` is left as it is. */
  lemma ViewUrlWithoutPreview(url: string)
    requires !Contains(url, PreviewSegment)
    ensures ViewUrl(url) == url
  {
    ContainsIffOccurs(url, PreviewSegment);
    ReplaceFirstAbsent(url, PreviewSegment, ViewSegment);
  }

  /** `getFilePreview`: the storage view link of a file, rewritten to a
      `/view` link; `None` when storage gives no (or an empty) link or the
      call throws, which `fileView` being `None` stands for. */
  function FilePreview(fileView: Option<string>): (r: Option<string>)
    ensures r.Some? <==> fileView.Some? && Truthy(fileView.value)
    ensures r.Some? ==> Truthy(r.value) && r.value == ViewUrl(fileView.value)
  {
    match fileView
    case None => None
    case Some(u) => if !Truthy(u) then None else Some(ViewUrl(u))
  }
}
