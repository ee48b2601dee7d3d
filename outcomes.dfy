/** Success/failure values shared by the storyboard components. In
    `test_task.py` every failure is a `return` of `None`; the model keeps
    the reason so that contracts can say which guard fired. */
module Outcomes {

  datatype Option<+T> = None | Some(value: T)

  datatype Result<+T, +E> = Ok(value: T) | Err(error: E)
}
