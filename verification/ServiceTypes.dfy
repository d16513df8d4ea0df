/** The records of a microservice (iw_fw_microservices.h): tasks, connect lines, task links.
    Fields that are set once while the service is created are constants. A list of the
    source is the sequence of its data pointers, head first; module IwList proves that the
    linked list refines this. */
module ServiceTypes {
  import opened Basics

  /** WAITING is the same value as CREATED. The three initial states are also values of this
      enumeration: I_S_ACTIVE, I_S_READY and I_S_STOP. */
  datatype State = NOT_READY | CREATED | STOPPED | RUNNING

  const I_S_ACTIVE := NOT_READY
  const I_S_READY := CREATED
  const I_S_STOP := STOPPED

  predicate IsActiveState(s: State) {
    s == CREATED || s == RUNNING
  }

  class TaskInfo {
    const name: string
    const task_idx: nat
    const input_count: Word
    const output_count: Word
    const lwmsg_input_port: Int32
    const offloading: bool
    const output_ports: array<ConnectLine?>
    var initial_state: State
    var state: State
    var task_t: bool

    constructor (name: string, task_idx: nat, input_count: Word, output_count: Word, lwmsg_input_port: Int32,
        offloading: bool)
      ensures this.name == name && this.task_idx == task_idx
      ensures this.input_count == input_count && this.output_count == output_count
      ensures this.lwmsg_input_port == lwmsg_input_port && this.offloading == offloading
      ensures fresh(output_ports) && output_ports.Length == output_count
      ensures forall p :: 0 <= p < output_count ==> output_ports[p] == null
      ensures initial_state == CREATED && state == NOT_READY && !task_t
    {
      this.name, this.task_idx := name, task_idx;
      this.input_count, this.output_count := input_count, output_count;
      this.lwmsg_input_port, this.offloading := lwmsg_input_port, offloading;
      output_ports := new ConnectLine?[output_count](_ => null);
      initial_state, state, task_t := I_S_READY, NOT_READY, false;
    }
  }

  class ConnectLine {
    const start_task: TaskInfo
    const output_port_no: Word
    const dest_task: TaskInfo
    const input_port_no: Word

    constructor (start: TaskInfo, outPort: Word, dest: TaskInfo, inPort: Word)
      ensures start_task == start && output_port_no == outPort
      ensures dest_task == dest && input_port_no == inPort
    {
      start_task, output_port_no, dest_task, input_port_no := start, outPort, dest, inPort;
    }
  }

  /** A wiring list as stored at a leaf. Its identity matters: it is freed with the leaf. */
  class LineList {
    const lines: seq<ConnectLine>

    constructor (lines: seq<ConnectLine>)
      ensures this.lines == lines
    {
      this.lines := lines;
    }
  }

  class TaskLink {
    var task: TaskInfo?
    var next_on: TaskLink?
    var next_off: TaskLink?
    var connect_link_head: LineList?
    var output_param_name: string

    constructor (task: TaskInfo?)
      ensures this.task == task && next_on == null && next_off == null
      ensures connect_link_head == null && output_param_name == ""
    {
      this.task, next_on, next_off, connect_link_head, output_param_name := task, null, null, null, "";
    }
  }
}
