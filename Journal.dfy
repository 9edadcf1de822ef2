/**
 The state held by the App component: the photo list, the `uploading` flag,
 the photo chosen for the detail dialog and whether that dialog is open. Each
 handler of the component is a method that replaces these fields the way the
 component's state setters do.
 */
module Journal {
  import opened Photos

  /** The three figures of the "Your Progress" panel. */
  datatype Progress = Progress(total: nat, uploaded: nat, completion: nat)

  class PhotoJournal {
    var photos: seq<Photo>
    var uploading: bool
    var selectedPhoto: Option<Photo>
    var openDialog: bool

    /** The component's initial state: no photos, nothing selected, idle. */
    constructor ()
      ensures photos == [] && !uploading && selectedPhoto == None && !openDialog
    {
      photos := [];
      uploading := false;
      selectedPhoto := None;
      openDialog := false;
    }

    /** The Upload All and Clear All buttons are rendered only when there is a
        photo and no upload is pending. */
    predicate ActionsEnabled()
      reads this
    {
      |photos| > 0 && !uploading
    }

    /** The progress panel, computed from the current photos. */
    function Stats(): (st: Progress)
      reads this
      ensures st.total == |photos|
      ensures st.uploaded <= st.total && st.completion <= 100
      ensures st.total == 0 ==> st.completion == 0
      ensures st.total > 0 && st.uploaded == st.total ==> st.completion == 100
      ensures st.uploaded == 0 ==> st.completion == 0
    {
      Progress(|photos|, UploadedCount(photos), Completion(photos))
    }

    /** A drop or a file selection: one fresh entry per file, prepended. */
    method Drop(files: seq<FileHandle>, minted: seq<Minted>)
      requires |minted| == |files|
      modifies this
      ensures photos == Added(old(photos), files, minted)
      ensures uploading == old(uploading) && selectedPhoto == old(selectedPhoto) && openDialog == old(openDialog)
    {
      var newPhotos := NewEntries(files, minted);
      photos := newPhotos + photos;
    }

    /** The first half of the upload handler: raise the flag and start the
        simulated delay. */
    method BeginUpload()
      requires ActionsEnabled()
      modifies this
      ensures uploading
      ensures photos == old(photos) && selectedPhoto == old(selectedPhoto) && openDialog == old(openDialog)
    {
      uploading := true;
    }

    /** The second half, after the delay: mark the photos present NOW as
        uploaded, then lower the flag. */
    method CompleteUpload()
      requires uploading
      modifies this
      ensures !uploading
      ensures photos == MarkAllUploaded(old(photos))
      ensures selectedPhoto == old(selectedPhoto) && openDialog == old(openDialog)
    {
      photos := MarkAllUploaded(photos);
      uploading := false;
    }

    /** The delete button of a card. */
    method Delete(id: PhotoId)
      modifies this
      ensures photos == WithoutId(old(photos), id)
      ensures uploading == old(uploading) && selectedPhoto == old(selectedPhoto) && openDialog == old(openDialog)
    {
      photos := WithoutId(photos, id);
    }

    /** The Clear All button. */
    method ClearAll()
      requires ActionsEnabled()
      modifies this
      ensures photos == []
      ensures uploading == old(uploading) && selectedPhoto == old(selectedPhoto) && openDialog == old(openDialog)
    {
      photos := [];
    }

    /** The view button of a card: select the photo and open the dialog. */
    method ViewPhoto(photo: Photo)
      modifies this
      ensures selectedPhoto == Some(photo) && openDialog
      ensures photos == old(photos) && uploading == old(uploading)
    {
      selectedPhoto := Some(photo);
      openDialog := true;
    }

    /** Closing the dialog keeps the selection. */
    method CloseDialog()
      modifies this
      ensures !openDialog
      ensures photos == old(photos) && uploading == old(uploading) && selectedPhoto == old(selectedPhoto)
    {
      openDialog := false;
    }
  }

  /** A drop that lands while an upload is pending is marked by the completion
      too, since the completion maps over the photos as they are then. */
  lemma DropDuringUploadIsMarked(prev: seq<Photo>, files: seq<FileHandle>, minted: seq<Minted>)
    requires |minted| == |files|
    ensures forall i :: 0 <= i < |files| + |prev| ==> MarkAllUploaded(Added(prev, files, minted))[i].uploaded
    ensures UploadedCount(MarkAllUploaded(Added(prev, files, minted))) == |files| + |prev|
  {
    MarkAllUploadedStats(Added(prev, files, minted));
  }

  /** A drop after completion adds pending entries: the uploaded count stays
      put, so the new photos stay pending until the next upload. */
  lemma DropAfterUploadIsPending(prev: seq<Photo>, files: seq<FileHandle>, minted: seq<Minted>)
    requires |minted| == |files|
    ensures UploadedCount(Added(MarkAllUploaded(prev), files, minted)) == |prev|
    ensures forall i :: 0 <= i < |files| ==> !Added(MarkAllUploaded(prev), files, minted)[i].uploaded
  {
    AddedUploadedCount(MarkAllUploaded(prev), files, minted);
    MarkAllUploadedStats(prev);
  }

  /** Begin an upload, drop more photos during the delay, then complete: the
      dropped photos are marked as well. */
  method UploadWithDropDuringDelay(j: PhotoJournal, files: seq<FileHandle>, minted: seq<Minted>)
    requires j.ActionsEnabled() && |minted| == |files|
    modifies j
    ensures |j.photos| == |files| + |old(j.photos)| && !j.uploading
    ensures forall i :: 0 <= i < |j.photos| ==> j.photos[i].uploaded
    ensures UploadedCount(j.photos) == |j.photos|
  {
    j.BeginUpload();
    j.Drop(files, minted);
    ghost var pending := j.photos;
    j.CompleteUpload();
    DropDuringUploadIsMarked(old(j.photos), files, minted);
    assert pending == Added(old(j.photos), files, minted);
  }

  /** A walk-through: add three photos, upload, delete one. */
  method Walkthrough(f: seq<FileHandle>, m: seq<Minted>) returns (afterDrop: Progress, afterUpload: Progress, afterDelete: Progress)
    requires |f| == 3 && |m| == 3
    requires m[0].id != m[1].id && m[1].id != m[2].id && m[0].id != m[2].id
    ensures afterDrop == Progress(3, 0, 0)
    ensures afterUpload == Progress(3, 3, 100)
    ensures afterDelete == Progress(2, 2, 100)
  {
    var j := new PhotoJournal();
    j.Drop(f, m);
    AddedUploadedCount([], f, m);
    afterDrop := j.Stats();
    ghost var dropped := j.photos;
    j.BeginUpload();
    j.CompleteUpload();
    ghost var marked := j.photos;
    MarkAllUploadedStats(dropped);
    afterUpload := j.Stats();
    assert marked[0].id == m[0].id && marked[1].id == m[1].id && marked[2].id == m[2].id;
    DeleteSoleIdFromUploaded(marked, 1);
    j.Delete(m[1].id);
    afterDelete := j.Stats();
  }
}
