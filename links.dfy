/**
  Share-link resolution (`get_gdrive_download_url`): a Google Drive sharing
  link is turned into a direct-download address, or into nothing when it has
  neither recognised shape.
 */
module Links {

  import opened Wrappers
  import opened Strings

  const SheetMarker := "spreadsheets/d/"
  const FileMarker := "file/d/"
  const IdMarker := "/d/"

  const SheetExportPrefix := "https://docs.google.com/spreadsheets/d/"
  const SheetExportSuffix := "/export?format=xlsx"
  const FileDownloadPrefix := "https://drive.google.com/uc?export=download&id="

  lemma MarkerInside(link: string, marker: string, offset: nat)
    requires Contains(link, marker)
    requires offset + |IdMarker| <= |marker| && marker[offset..offset + |IdMarker|] == IdMarker
    ensures Contains(link, IdMarker)
  {
    var k := IndexOf(link, marker).value;
    var m := link[k..k + |marker|];
    assert m == marker;
    assert link[k + offset..k + offset + |IdMarker|] == m[offset..offset + |IdMarker|];
    assert MatchAt(link, IdMarker, k + offset);
    ContainsAt(link, IdMarker, k + offset);
  }

  lemma CharIsMatch(s: string, k: nat)
    requires k < |s| && s[k] == '/'
    ensures Contains(s, "/")
  {
    assert s[k..k + 1] == "/";
    ContainsAt(s, "/", k);
  }

  /** `link.split('/d/')[1].split('/')[0]`: the identifier between the first
      `/d/` and the next `/`. It never contains a `/`. */
  function FileId(link: string): (id: string)
    requires Contains(link, IdMarker)
    ensures forall k :: 0 <= k < |id| ==> id[k] != '/'
  {
    var id := BeforeFirst(Split(link, IdMarker)[1], "/");
    assert forall k :: 0 <= k < |id| ==> id[k] != '/' by {
      forall k | 0 <= k < |id| ensures id[k] != '/' {
        if id[k] == '/' { CharIsMatch(id, k); }
      }
    }
    id
  }

  /** The download address for a share link; `None` for an unrecognised link.
      The spreadsheet shape is tried first. */
  function DownloadUrl(link: string): (r: Option<string>)
    ensures r.None? <==> !Contains(link, SheetMarker) && !Contains(link, FileMarker)
    ensures Contains(link, SheetMarker) ==>
      Contains(link, IdMarker) && r == Some(SheetExportPrefix + FileId(link) + SheetExportSuffix)
    ensures !Contains(link, SheetMarker) && Contains(link, FileMarker) ==>
      Contains(link, IdMarker) && r == Some(FileDownloadPrefix + FileId(link))
  {
    if Contains(link, SheetMarker) then
      MarkerInside(link, SheetMarker, 12);
      Some(SheetExportPrefix + FileId(link) + SheetExportSuffix)
    else if Contains(link, FileMarker) then
      MarkerInside(link, FileMarker, 4);
      Some(FileDownloadPrefix + FileId(link))
    else
      None
  }

  /** No occurrence of `/d/` begins inside `p` (even one running into what follows). */
  predicate NoMarkerWithin(p: string) {
    forall k :: 0 <= k < |p| ==> !MatchAt(p + IdMarker, IdMarker, k)
  }

  predicate NoSlash(id: string) {
    forall k :: 0 <= k < |id| ==> id[k] != '/'
  }

  lemma FirstMarker(p: string, rest: string)
    requires NoMarkerWithin(p)
    ensures IndexOf(p + IdMarker + rest, IdMarker) == Some(|p|)
  {
    var link := p + IdMarker + rest;
    assert |IdMarker| == 3;
    assert link[|p|..|p| + 3] == IdMarker;
    assert MatchAt(link, IdMarker, |p|);
    forall k | 0 <= k < |p| ensures !MatchAt(link, IdMarker, k) {
      assert !MatchAt(p + IdMarker, IdMarker, k);
      assert link[k..k + 3] == (p + IdMarker)[k..k + 3];
    }
  }

  lemma SecondPiece(p: string, rest: string)
    requires NoMarkerWithin(p)
    ensures Contains(p + IdMarker + rest, IdMarker)
    ensures Split(p + IdMarker + rest, IdMarker)[1] == BeforeFirst(rest, IdMarker)
  {
    var link := p + IdMarker + rest;
    FirstMarker(p, rest);
    assert link[|p| + |IdMarker|..] == rest;
    assert Split(link, IdMarker) == [link[..|p|]] + Split(rest, IdMarker);
  }

  lemma NoSlashNotFound(s: string)
    requires NoSlash(s)
    ensures IndexOf(s, "/").None?
  {
    forall k | 0 <= k < |s| ensures !MatchAt(s, "/", k) {
      assert s[k..k + 1] == [s[k]];
    }
  }

  lemma SegmentId(id: string, q: string)
    requires NoSlash(id)
    requires q == [] || q[0] == '/'
    ensures BeforeFirst(BeforeFirst(id + q, IdMarker), "/") == id
  {
    var rest := id + q;
    var seg := BeforeFirst(rest, IdMarker);
    forall k | 0 <= k < |id| ensures !MatchAt(rest, IdMarker, k) {
      assert rest[k] == id[k];
      if MatchAt(rest, IdMarker, k) { MatchHead(rest, IdMarker, k); }
    }
    assert |id| <= |seg| && seg[..|id|] == id;
    if |seg| == |id| {
      assert seg == id;
      NoSlashNotFound(seg);
    } else {
      assert seg[|id|] == rest[|id|] == '/';
      MatchAtChar(seg, '/', |id|);
      forall k | 0 <= k < |id| ensures !MatchAt(seg, "/", k) {
        assert seg[k] == id[k];
        MatchAtChar(seg, '/', k);
      }
    }
  }

  /** The identifier is exactly the text after the first `/d/` up to the next `/` (or the end). */
  lemma FileIdOfParts(p: string, id: string, q: string)
    requires NoMarkerWithin(p) && NoSlash(id)
    requires q == [] || q[0] == '/'
    ensures Contains(p + IdMarker + id + q, IdMarker)
    ensures FileId(p + IdMarker + id + q) == id
  {
    assert p + IdMarker + id + q == p + IdMarker + (id + q);
    SecondPiece(p, id + q);
    SegmentId(id, q);
  }

  /** A spreadsheet sharing link resolves to the xlsx export of the identifier it carries. */
  lemma SheetLinkResolves(p: string, id: string, q: string)
    requires NoMarkerWithin(p + "spreadsheets") && NoSlash(id)
    requires q == [] || q[0] == '/'
    ensures DownloadUrl(p + SheetMarker + id + q) == Some(SheetExportPrefix + id + SheetExportSuffix)
  {
    var link := p + SheetMarker + id + q;
    assert link == (p + "spreadsheets") + IdMarker + id + q;
    FileIdOfParts(p + "spreadsheets", id, q);
    assert link[|p|..|p| + |SheetMarker|] == SheetMarker;
    ContainsAt(link, SheetMarker, |p|);
  }

  /** A generic file link (with no spreadsheet marker anywhere) resolves to the
      direct-download address of its identifier. */
  lemma FileLinkResolves(p: string, id: string, q: string)
    requires NoMarkerWithin(p + "file") && NoSlash(id)
    requires q == [] || q[0] == '/'
    requires !Contains(p + FileMarker + id + q, SheetMarker)
    ensures DownloadUrl(p + FileMarker + id + q) == Some(FileDownloadPrefix + id)
  {
    var link := p + FileMarker + id + q;
    assert link == (p + "file") + IdMarker + id + q;
    FileIdOfParts(p + "file", id, q);
    assert link[|p|..|p| + |FileMarker|] == FileMarker;
    ContainsAt(link, FileMarker, |p|);
  }
}
