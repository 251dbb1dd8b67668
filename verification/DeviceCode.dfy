/** The code of the device file, on the four linked lists (linux/ipcdrv/ipcmodule.c). */
module DeviceCode {
  import opened Registry
  import opened RegistryCode
  import opened Device

  /** struct file; privateData is the driver while the file is open. */
  class DeviceFile {
    var privateData: Driver?
  }

  /** An ioctl with its parameters. For closing, the handle is the entry itself. The other commands work on an
      entry that was found before; what they report is the outcome of the lock protocol. */
  datatype Request = OpenRequest(kind: Kind, name: string) | CloseRequest(kind: Kind, handle: Entry)
                   | EntryRequest(outcome: int) | UnknownRequest

  ghost function CommandOf(request: Request): Command {
    match request
    case OpenRequest(kind, name) => OpenCommand(kind, name)
    case CloseRequest(kind, handle) => CloseCommand(kind, handle.handle)
    case EntryRequest(outcome) => EntryCommand(outcome)
    case UnknownRequest => UnknownCommand
  }

  ghost predicate Apart(a: seq<Entry>, b: seq<Entry>) {
    forall e | e in a :: e !in b
  }

  class Driver {
    var usage: int
    const sems: EntryList
    const mutexes: EntryList
    const events: EntryList
    const shms: EntryList

    /** The files that are open. */
    ghost var files: set<DeviceFile>

    ghost predicate FilesValid()
      reads this, files
    {
      forall f | f in files :: f.privateData == this
    }

    /** The lists are four, and each holds entries of its own. */
    ghost predicate ListsValid()
      reads sems, mutexes, events, shms, sems.list, mutexes.list, events.list, shms.list
    {
      && sems != mutexes && sems != events && sems != shms && mutexes != events && mutexes != shms && events != shms
      && sems.Valid() && mutexes.Valid() && events.Valid() && shms.Valid()
      && Apart(sems.issued, mutexes.issued) && Apart(sems.issued, events.issued) && Apart(sems.issued, shms.issued)
      && Apart(mutexes.issued, events.issued) && Apart(mutexes.issued, shms.issued) && Apart(events.issued, shms.issued)
    }

    ghost function Contents(): State<DeviceFile>
      reads this, sems, mutexes, events, shms, sems.list, mutexes.list, events.list, shms.list
    {
      State(usage, files, [sems.Contents(), mutexes.Contents(), events.Contents(), shms.Contents()])
    }

    /** ipc_probe */
    constructor ()
      ensures ListsValid() && FilesValid() && Contents() == Fresh()
    {
      hide Registry.Inv, Slots, Purged, Registry.CloseAll, Names, Handles, EntryList.Valid, EntryList.Contents;
      usage := 0;
      files := {};
      sems := new EntryList();
      mutexes := new EntryList();
      events := new EntryList();
      shms := new EntryList();
    }

    /** ipc_device_close, as far as the lists are concerned: the four close_all loops, whose results are ignored. */
    method Purge()
      requires ListsValid()
      modifies sems`list, mutexes`list, events`list, shms`list
      ensures ListsValid()
      ensures sems.Contents() == Registry.CloseAll(old(sems.Contents())).0
      ensures mutexes.Contents() == Registry.CloseAll(old(mutexes.Contents())).0
      ensures events.Contents() == Registry.CloseAll(old(events.Contents())).0
      ensures shms.Contents() == Registry.CloseAll(old(shms.Contents())).0
    {
      hide EntryList.Contents, Registry.CloseAll, Registry.Inv, Apart, Slots, EntryList.Valid;
      var e := sems.CloseAll();
      e := mutexes.CloseAll();
      e := events.CloseAll();
      e := shms.CloseAll();
    }

    /** ipc_device_open */
    method Open(file: DeviceFile)
      requires ListsValid() && FilesValid() && file !in files
      modifies this, file
      ensures ListsValid() && FilesValid() && file.privateData == this
      ensures Contents() == OpenFile(old(Contents()), file)
    {
      hide EntryList.Valid, EntryList.Contents, Apart;
      usage := usage + 1;
      file.privateData := this;
      files := files + {file};
    }

    /** ipc_device_close */
    method Close(file: DeviceFile)
      requires ListsValid() && FilesValid() && file in files
      modifies this, file, sems`list, mutexes`list, events`list, shms`list
      ensures ListsValid() && FilesValid() && file.privateData == null
      ensures Contents() == CloseFile(old(Contents()), file)
    {
      hide EntryList.Valid, EntryList.Contents, Apart, Registry.CloseAll;
      usage := usage - 1;
      file.privateData := null;
      files := files - {file};
      if usage == 0 { Purge(); }
    }

    ghost function Regs(): seq<Reg>
      reads sems, mutexes, events, shms, sems.list, mutexes.list, events.list, shms.list
    {
      [sems.Contents(), mutexes.Contents(), events.Contents(), shms.Contents()]
    }

    /** The create commands. */
    method CreateIn(kind: Kind, name: string)
      requires ListsValid()
      modifies sems, mutexes, events, shms, sems.list, mutexes.list, events.list, shms.list
      ensures ListsValid()
      ensures Regs() == old(Regs())[Index(kind) := Registry.Open(old(Regs())[Index(kind)], name).0]
    {
      hide EntryList.Contents, Registry.Open, Registry.Inv;
      match kind {
        case SemKind => var e := sems.Create(name);
        case MutexKind => var e := mutexes.Create(name);
        case EventKind => var e := events.Create(name);
        case ShmKind => var e := shms.Create(name);
      }
    }

    ghost function ListOf(kind: Kind): EntryList {
      match kind
      case SemKind => sems
      case MutexKind => mutexes
      case EventKind => events
      case ShmKind => shms
    }

    /** The close commands. The one for mutexes does not report that the object is still in use. */
    method CloseIn(kind: Kind, handle: Entry) returns (error: int)
      requires ListsValid() && handle in ListOf(kind).issued
      modifies sems`list, mutexes`list, events`list, shms`list, sems.list, mutexes.list, events.list, shms.list
      ensures ListsValid()
      ensures var c := Registry.Close(old(Regs())[Index(kind)], handle.handle);
              Regs() == old(Regs())[Index(kind) := c.0] && error == Reported(kind, c.1)
    {
      hide EntryList.Contents, Registry.Close, Registry.Inv;
      match kind {
        case SemKind => error := sems.Close(handle);
        case MutexKind =>
          error := mutexes.Close(handle);
          if error == -EBUSY { error := 0; }
        case EventKind => error := events.Close(handle);
        case ShmKind => error := shms.Close(handle);
      }
    }

    /** ipc_device_ioctl */
    method Ioctl(file: DeviceFile, request: Request) returns (error: int)
      requires ListsValid() && FilesValid() && (file in files <==> file.privateData != null)
      requires request.CloseRequest? ==> request.handle in ListOf(request.kind).issued
      modifies sems, mutexes, events, shms, sems.list, mutexes.list, events.list, shms.list
      ensures ListsValid() && FilesValid()
      ensures (Contents(), error) == Device.Ioctl(old(Contents()), file, CommandOf(request))
    {
      hide EntryList.Valid, EntryList.Contents, Registry.Open, Registry.Close, Apart;
      if file.privateData == null { return -ENODEV; }
      match request {
        case OpenRequest(kind, name) =>
          CreateIn(kind, name);
          error := 0;
        case CloseRequest(kind, handle) => error := CloseIn(kind, handle);
        case EntryRequest(outcome) => error := outcome;
        case UnknownRequest => error := -EINVAL;
      }
    }
  }
}
