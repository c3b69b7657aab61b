/** The editor as it runs: one object that owns the buffer, the selection and the dialog. */
module Editors {
  import opened Bytes
  import opened GapModel
  import opened GapBuffers
  import opened Highlights
  import opened Disks
  import opened EditorModel
  import opened Network

  class ChangeFileModal {
    var active: bool
    var path: Text
    var confirmed: bool

    function Model(): Dialog
      reads this
    {
      Dialog(active, path, confirmed)
    }

    constructor ()
      ensures Model() == Dialog(false, [], false)
    {
      active, path, confirmed := false, [], false;
    }

    method Activate()
      modifies this
      ensures Model() == Activated(old(Model()))
    {
      active := true;
      confirmed := false;
      path := [];
    }

    method Deactivate()
      modifies this`active
      ensures !active
    {
      active := false;
    }

    /** A key in the dialog; the result says whether it closes it. */
    method HandleInput(e: Event) returns (done: bool)
      modifies this
      ensures (Model(), done) == DialogKey(old(Model()), e)
    {
      match e.key
      case CharKey =>
        path := path + [e.value];
        return false;
      case BackspaceKey =>
        if path != [] {
          path := path[..|path| - 1];
        }
        return false;
      case EnterKey =>
        confirmed := true;
        return true;
      case EscapeKey =>
        confirmed := false;
        return true;
      case _ =>
        return false;
    }
  }

  class Editor {
    const mode: Mode
    const highlight: Highlight
    const modal: ChangeFileModal
    var path: Text
    var buffer: GapBuffer
    var disk: Disk
    var clipboard: Text
    var running: bool
    var posts: seq<Text>

    ghost predicate Valid()
      reads this, buffer
    {
      buffer.Valid()
    }

    ghost function Model(): State
      requires Valid()
      reads this, buffer, buffer.data, highlight, modal
    {
      State(mode, path, buffer.Model(), highlight.Model(), modal.Model(), disk, clipboard, running, posts)
    }

    constructor (mode: Mode, path: Text, disk: Disk, clip: Text)
      ensures Valid() && Model() == Opened(mode, path, disk, clip)
      ensures fresh(buffer) && fresh(buffer.data) && fresh(highlight) && fresh(modal)
    {
      var d, b := LoadFile(disk, path);
      this.mode := mode;
      this.highlight := new Highlight();
      this.modal := new ChangeFileModal();
      this.path, this.disk, this.buffer := path, d, b;
      this.clipboard, this.running, this.posts := clip, true, [];
    }

    /** `load_file`. */
    static method LoadFile(disk: Disk, path: Text) returns (d: Disk, b: GapBuffer)
      ensures fresh(b) && fresh(b.data) && b.Valid() && (d, b.Model()) == Load(disk, path)
    {
      d := disk;
      if !disk.Readable(path) {
        if disk.Writable(path) {
          d := disk.(files := disk.files[path := []]);
        }
        b := new GapBuffer();
        return;
      }
      b := new GapBuffer.Load(disk.files[path]);
    }

    /** `save_file`. */
    method SaveFile()
      requires Valid()
      modifies this`disk
      ensures disk == Save(old(disk), path, buffer.Model().Content())
    {
      var text := buffer.Serialize();
      if disk.Writable(path) {
        disk := disk.(files := disk.files[path := text]);
      }
    }

    /** `init`, when another file is opened. */
    method Init(p: Text)
      requires Valid()
      modifies this`path, this`buffer, this`disk
      ensures Valid() && fresh(buffer) && fresh(buffer.data)
      ensures path == p && (disk, buffer.Model()) == Load(old(disk), p)
    {
      path := p;
      disk, buffer := LoadFile(disk, p);
    }

    method MoveCursor(e: Event)
      requires Valid() && IsArrow(e.key)
      modifies buffer, buffer.data
      ensures Valid() && buffer.data == old(buffer.data)
      ensures buffer.Model() == Travel(old(buffer.Model()), MoveOf(e.key, e.ctrl))
    {
      match e.key
      case UpKey => buffer.MoveUp();
      case DownKey => buffer.MoveDown();
      case LeftKey =>
        if e.ctrl {
          buffer.MoveWordLeft();
        } else {
          OneLeft(buffer.Model());
          buffer.MoveLeft();
        }
      case RightKey =>
        if e.ctrl {
          buffer.MoveWordRight();
        } else {
          OneRight(buffer.Model());
          buffer.MoveRight();
        }
    }

    /** Copy: the raw bytes between the ends of the selection. */
    method Copy()
      requires Valid() && Inv(Model()) && mode != Client
      modifies this`clipboard
      ensures Valid() && Model() == CopySelected(old(Model()))
    {
      if highlight.active {
        clipboard := buffer.ReadRaw(Min(highlight.start, highlight.end), Max(highlight.start, highlight.end));
      }
    }

    /** The handlers of the three modes: a client only moves and quits. */
    method Handle(e: Event)
      requires Valid() && Inv(Model()) && !modal.active
      modifies this, buffer, buffer.data, highlight, modal
      ensures Valid() && buffer == old(buffer) && (buffer.data == old(buffer.data) || fresh(buffer.data))
      ensures Model() == HandleKey(old(Model()), e)
    {
      if IsArrow(e.key) {
        MoveCursor(e);
      } else if e.key == QuitKey {
        SaveFile();
        running := false;
      } else if mode != Client {
        HandleEdit(e);
      }
    }

    method HandleEdit(e: Event)
      requires Valid() && Inv(Model()) && !modal.active && mode != Client
      requires !IsArrow(e.key) && e.key != QuitKey
      modifies this, buffer, buffer.data, highlight, modal
      ensures Valid() && buffer == old(buffer) && (buffer.data == old(buffer.data) || fresh(buffer.data))
      ensures Model() == HandleKey(old(Model()), e)
    {
      match e.key
      case BackspaceKey => buffer.EraseLeft();
      case CharKey => buffer.InsertChar(e.value);
      case EnterKey => buffer.InsertChar(e.value);
      case CopyKey => Copy();
      case PasteKey =>
        buffer.PasteText(clipboard);
        highlight.Clear();
      case ChangeFileKey =>
        if mode == Offline {
          modal.Activate();
        }
      case _ =>
    }

    /** The dialog is open: the key is its, and Enter changes the file. */
    method ProcessDialog(e: Event)
      requires Valid() && Inv(Model()) && modal.active
      modifies this, modal
      ensures Valid() && (buffer == old(buffer) || (fresh(buffer) && fresh(buffer.data)))
      ensures Model() == InDialog(old(Model()), e)
    {
      var done := modal.HandleInput(e);
      if done {
        if modal.confirmed {
          SaveFile();
          Init(modal.path);
        }
        modal.Deactivate();
      }
    }

    /** `process_input`. */
    method ProcessInput(e: Event)
      requires Valid() && Inv(Model()) && Producible(e)
      modifies this, buffer, buffer.data, highlight, modal
      ensures Valid() && (buffer == old(buffer) || fresh(buffer))
      ensures buffer.data == old(buffer.data) || fresh(buffer.data)
      ensures Model() == Process(old(Model()), e)
    {
      if e.key == NoKey {
        return;
      }
      if modal.active {
        ProcessDialog(e);
        return;
      }
      ProcessText(e);
    }

    /** A key in the text, with the bookkeeping of the selection around it. */
    method ProcessText(e: Event)
      requires Valid() && Inv(Model()) && Producible(e) && !modal.active
      modifies this, buffer, buffer.data, highlight, modal
      ensures Valid() && buffer == old(buffer) && (buffer.data == old(buffer.data) || fresh(buffer.data))
      ensures Model() == InText(old(Model()), e)
    {
      SelectFirst(e);
      Handle(e);
      if e.shift {
        highlight.UpdateEndpoint(buffer.gapStart);
      }
      if mode == Host {
        BroadcastBuffer();
      }
    }

    method SelectFirst(e: Event)
      requires Valid() && Inv(Model()) && !modal.active
      modifies highlight
      ensures Valid() && Model() == SelectBefore(old(Model()), e)
    {
      if e.shift && !highlight.active {
        highlight.Start(buffer.gapStart);
      }
      if !e.shift && e.key != CharKey && e.key != BackspaceKey && e.key != CopyKey && e.key != PasteKey {
        highlight.Clear();
      }
    }

    /** `broadcast_buffer`: the text as it is now is handed to the network thread. */
    method BroadcastBuffer()
      requires Valid()
      modifies this`posts
      ensures Valid() && posts == old(posts) + [buffer.Model().Content()]
    {
      var data := buffer.Serialize();
      posts := posts + [data];
    }

    /** `poll_network`: a client with a new text in its mailbox takes it over. */
    method PollNetwork(client: TcpClient?)
      requires Valid() && Inv(Model())
      modifies buffer, client
      ensures Valid() && (buffer.data == old(buffer.data) || fresh(buffer.data))
      ensures var taken := mode == Client && client != null && old(client.newData);
              && Model() == (if taken then Poll(old(Model()), old(client.latestBuffer)) else old(Model()))
              && (client != null ==> client.Model() == if taken then Emptied(old(client.Model())) else old(client.Model()))
    {
      if mode != Client || client == null {
        return;
      }
      var hasNew := client.HasNewData();
      if !hasNew {
        return;
      }
      var text := client.GetLatestBuffer();
      buffer.Refresh(text);
    }
  }
}
